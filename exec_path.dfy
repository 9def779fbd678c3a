/**
 * resolve_exec_path of the Linux backends.  dladdr reports argv[0] as the
 * object of a symbol of the main executable; that name may not be a path
 * at all, so the executable is opened through /proc/self/exe and shown
 * under the path that link resolves to.  argv[0] and the link target are
 * read once at construction (I/O, here parameters).
 */
module ExecPath {

  const ProcSelfExe: string := "/proc/self/exe"

  /** The file to open (the new dli_fname) and the file name to display. */
  datatype ObjectPaths = ObjectPaths(openName: string, displayName: string)

  function ResolveExecPath(dliFname: string, argv0: string, execPath: string): (r: ObjectPaths)
    ensures dliFname == argv0 ==> r == ObjectPaths(ProcSelfExe, execPath)
    ensures dliFname != argv0 ==> r.openName == dliFname && r.displayName == dliFname
  {
    if dliFname == argv0 then ObjectPaths(ProcSelfExe, execPath)
    else ObjectPaths(dliFname, dliFname)
  }

  /**
   * Resolving the name it produced again opens the same file, unless the
   * program was itself started as /proc/self/exe.
   */
  lemma OpenNameStable(dliFname: string, argv0: string, execPath: string)
    requires argv0 != ProcSelfExe
    ensures var r := ResolveExecPath(dliFname, argv0, execPath);
      ResolveExecPath(r.openName, argv0, execPath).openName == r.openName
  {
  }

  /**
   * argv[0] is never shown as the object name unless it is also the link
   * target; every other name is shown as dladdr gave it.
   */
  lemma Argv0NeverDisplayed(dliFname: string, argv0: string, execPath: string)
    requires execPath != argv0
    ensures ResolveExecPath(dliFname, argv0, execPath).displayName != argv0
    ensures ResolveExecPath(dliFname, argv0, execPath).displayName in {dliFname, execPath}
  {
  }
}
