/**
  The capture helper's window search (Capture/main.cpp,
  FindWindowByProcessName): a process snapshot is scanned for the first
  entry whose executable name matches, case-insensitively, and the window
  enumeration for the first visible top-level window of that process.

  The snapshot and the enumeration are inputs, in the order the system
  reports them.  Window handles and process ids are numbers; 0 stands for
  NULL and for "no process".
 */
module ProcessSearch {
  import opened Text

  datatype ProcessEntry = ProcessEntry(exeFile: string, pid: nat)
  datatype WindowEntry = WindowEntry(hwnd: nat, pid: nat, visible: bool, hasParent: bool)

  /**
    The snapshot entry the search stops at, or -1.  Entry 0 is the one
    Process32FirstW fills in; the loop calls Process32NextW before its first
    comparison, so entry 0 is never compared.
   */
  function MatchingProcess(processes: seq<ProcessEntry>, name: string): (k: int)
    ensures k == -1 || (1 <= k < |processes| && EqualsIgnoreCase(processes[k].exeFile, name))
    ensures forall j :: 1 <= j < (if k == -1 then |processes| else k) ==> !EqualsIgnoreCase(processes[j].exeFile, name)
  {
    if |processes| <= 1 then -1 else MatchFrom(processes, name, 1)
  }

  function MatchFrom(processes: seq<ProcessEntry>, name: string, i: nat): (k: int)
    requires i <= |processes|
    ensures k == -1 || (i <= k < |processes| && EqualsIgnoreCase(processes[k].exeFile, name))
    ensures forall j :: i <= j < (if k == -1 then |processes| else k) ==> !EqualsIgnoreCase(processes[j].exeFile, name)
    decreases |processes| - i
  {
    if i == |processes| then -1
    else if EqualsIgnoreCase(processes[i].exeFile, name) then i
    else MatchFrom(processes, name, i + 1)
  }

  /** The process id the search settles on; 0 when nothing matched (or the match has id 0). */
  function TargetPid(processes: seq<ProcessEntry>, name: string): nat {
    var k := MatchingProcess(processes, name);
    if k == -1 then 0 else processes[k].pid
  }

  predicate IsMainWindow(w: WindowEntry, pid: nat) {
    w.pid == pid && w.visible && !w.hasParent
  }

  /** The first enumerated visible, parentless window of process pid, or -1. */
  function MainWindow(windows: seq<WindowEntry>, pid: nat): (k: int)
    ensures k == -1 || (0 <= k < |windows| && IsMainWindow(windows[k], pid))
    ensures forall j :: 0 <= j < (if k == -1 then |windows| else k) ==> !IsMainWindow(windows[j], pid)
  {
    if windows == [] then -1
    else if IsMainWindow(windows[|windows| - 1], pid) && MainWindow(windows[..|windows| - 1], pid) == -1 then
      |windows| - 1
    else MainWindow(windows[..|windows| - 1], pid)
  }

  /** What FindWindowByProcessName returns: the window handle, or 0. */
  function SearchResult(processes: seq<ProcessEntry>, windows: seq<WindowEntry>, name: string): nat {
    var pid := TargetPid(processes, name);
    if pid == 0 then 0
    else
      var k := MainWindow(windows, pid);
      if k == -1 then 0 else windows[k].hwnd
  }

  /** The search, with the snapshot walk and the enumeration callback as loops that stop at the first hit. */
  method FindWindowByProcessName(processes: seq<ProcessEntry>, windows: seq<WindowEntry>, name: string)
    returns (hwnd: nat)
    ensures hwnd == SearchResult(processes, windows, name)
  {
    var targetPid := 0;
    if |processes| > 0 {
      var i := 1;
      while i < |processes|
        invariant 1 <= i <= |processes|
        invariant targetPid == 0 && MatchFrom(processes, name, i) == MatchingProcess(processes, name)
        decreases |processes| - i
      {
        if EqualsIgnoreCase(processes[i].exeFile, name) {
          targetPid := processes[i].pid;
          break;
        }
        i := i + 1;
      }
    }
    assert targetPid == TargetPid(processes, name);
    if targetPid == 0 {
      return 0;
    }
    hwnd := 0;
    var j := 0;
    while j < |windows|
      invariant 0 <= j <= |windows|
      invariant hwnd == 0 && forall m :: 0 <= m < j ==> !IsMainWindow(windows[m], targetPid)
    {
      if windows[j].pid == targetPid && windows[j].visible && !windows[j].hasParent {
        MainWindowIsFirst(windows, targetPid, j);
        hwnd := windows[j].hwnd;
        return;
      }
      j := j + 1;
    }
    MainWindowIsFirst(windows, targetPid, |windows|);
  }

  /** MainWindow is the first hit: no hit before j and a hit at j means j, no hit at all means -1. */
  lemma MainWindowIsFirst(windows: seq<WindowEntry>, pid: nat, j: nat)
    requires j <= |windows|
    requires forall m :: 0 <= m < j ==> !IsMainWindow(windows[m], pid)
    requires j < |windows| ==> IsMainWindow(windows[j], pid)
    ensures MainWindow(windows, pid) == (if j < |windows| then j else -1)
  {
  }

  /** The first snapshot entry never influences the result. */
  lemma FirstEntryIgnored(processes: seq<ProcessEntry>, windows: seq<WindowEntry>, name: string, e: ProcessEntry)
    requires processes != []
    ensures SearchResult([e] + processes[1..], windows, name) == SearchResult(processes, windows, name)
  {
    var other := [e] + processes[1..];
    assert forall j :: 1 <= j < |processes| ==> other[j] == processes[j];
  }

  /** A process whose name differs only in ASCII letter case is found all the same. */
  lemma NameCaseIgnored(processes: seq<ProcessEntry>, windows: seq<WindowEntry>, name: string, name': string)
    requires EqualsIgnoreCase(name, name')
    ensures SearchResult(processes, windows, name) == SearchResult(processes, windows, name')
  {
    assert MatchingProcess(processes, name) == MatchingProcess(processes, name');
  }

  /** A window is found only for a matching process with a non-zero id, and it is a main window of it. */
  lemma FoundWindowBelongsToMatch(processes: seq<ProcessEntry>, windows: seq<WindowEntry>, name: string)
    requires SearchResult(processes, windows, name) != 0
    ensures exists i, j :: 1 <= i < |processes| && 0 <= j < |windows| &&
                           EqualsIgnoreCase(processes[i].exeFile, name) && processes[i].pid != 0 &&
                           IsMainWindow(windows[j], processes[i].pid) &&
                           windows[j].hwnd == SearchResult(processes, windows, name)
  {
    var i := MatchingProcess(processes, name);
    var j := MainWindow(windows, processes[i].pid);
    assert IsMainWindow(windows[j], processes[i].pid);
  }
}
