/** The user's rule set: the "General" option page of the Solution Cleanup extension. */
module Options {
  datatype General = General(
    runDefaultCleanup: bool,
    deleteBinFolder: bool,
    deletePackagesFolder: bool,
    deleteTestResultsFolder: bool,
    deleteDotVsFolder: bool,
    deleteIisExpressLogsFolder: bool,
    deleteIisExpressTraceLogFilesFolder: bool)

  /**
   * The values a fresh option page starts with: the property initialisers, and the C# default
   * (false) for the properties that have none (DeletePackagesFolder, DeleteDotVsFolder and both
   * IIS Express flags).
   */
  function Initial(): (g: General)
    ensures g.runDefaultCleanup && g.deleteBinFolder
    ensures !g.deletePackagesFolder && !g.deleteTestResultsFolder && !g.deleteDotVsFolder
    ensures !g.deleteIisExpressLogsFolder && !g.deleteIisExpressTraceLogFilesFolder
  {
    General(true, true, false, false, false, false, false)
  }

  /** The values declared by the [DefaultValue] attributes, which a settings reset restores. */
  function DeclaredDefaults(): General {
    General(
      runDefaultCleanup := true,
      deleteBinFolder := true,
      deletePackagesFolder := false,
      deleteTestResultsFolder := false,
      deleteDotVsFolder := false,
      deleteIisExpressLogsFolder := false,
      deleteIisExpressTraceLogFilesFolder := false)
  }

  /** Each flag's initial value agrees with its [DefaultValue] attribute. */
  lemma InitialAgreesWithDeclaredDefaults()
    ensures Initial() == DeclaredDefaults()
  {
  }
}
