/**
 * The semihosting file table (`semihosting.cpp`): the `:semihosting-features`
 * magic file of the Arm Semihosting v2.0 extension mechanism, the resolution
 * of guest file names against the host's working directory, and the handle
 * and return-code logic of the file calls.
 *
 * A call's result is the pair the dispatcher writes back: the value for
 * `a0` and the semihosting errno, which the dispatcher also records. What
 * the host's stdio does (whether `fopen` succeeds, how many bytes `fread`
 * and `fwrite` move, what `fseek` and `ftell` report) is a parameter of the
 * call; the working directory and the cycle counter are parameters too.
 */
module Semihosting {
  import opened Wrappers

  // ---------------------------------------------------------- return values

  const U64: nat := 0x1_0000_0000_0000_0000

  /** The Linux errno values the calls report. */
  const ENXIO: nat := 6
  const EBADF: nat := 9
  const EINVAL: nat := 22
  const ERANGE: nat := 34

  /** `RetErrno`: the value written to `a0` and the semihosting errno. */
  datatype Ret = Ret(value: nat, errno: nat)

  /** `retError(e)`: the value is `(uint64_t)-1`. */
  function RetError(e: nat): (r: Ret)
    ensures r.value == U64 - 1 && r.errno == e
  {
    Ret(U64 - 1, e)
  }

  /** `retOK(v)`: no error. */
  function RetOk(v: nat): (r: Ret)
    ensures r.value == v && r.errno == 0
  {
    Ret(v, 0)
  }

  // ----------------------------------------------------------- the magic file

  /** The feature bytes: the "SHFB" magic and one byte of feature bits (EXIT_EXTENDED and STDOUT_STDERR). */
  const Features: seq<nat> := [0x53, 0x48, 0x46, 0x42, 0x03]

  function Min(a: nat, b: nat): nat
  {
    if a < b then a else b
  }

  /** The bytes a read of `size` bytes at position `pos` yields: as many as are asked and left. */
  function FeatureBytes(pos: nat, size: nat): (bs: seq<nat>)
    ensures pos < |Features| ==> bs == Features[pos..pos + Min(size, |Features| - pos)]
    ensures pos >= |Features| ==> bs == []
    ensures |bs| <= size
  {
    if pos < |Features| then Features[pos..pos + Min(size, |Features| - pos)] else []
  }

  /** Two reads in a row yield what one read of both sizes yields. */
  lemma FeatureReadsCompose(pos: nat, a: nat, b: nat)
    ensures FeatureBytes(pos, a) + FeatureBytes(pos + |FeatureBytes(pos, a)|, b) == FeatureBytes(pos, a + b)
  {
    if pos < |Features| {
      var n := |Features|;
      var x := Min(a, n - pos);
      if x < n - pos {
        assert x == a;
        assert Features[pos..pos + x] + Features[pos + x..pos + x + Min(b, n - pos - x)] ==
               Features[pos..pos + x + Min(b, n - pos - x)];
      } else {
        assert Features[pos..pos + x] + [] == Features[pos..pos + x];
      }
    }
  }

  /** Reading at least five bytes from the start yields the magic and the feature byte. */
  lemma FeatureReadWhole(size: nat)
    requires size >= |Features|
    ensures FeatureBytes(0, size) == Features
  {
    assert Features[0..|Features|] == Features;
  }

  /** `FileFeatures`: the `:semihosting-features` file, read through a position. */
  class FeaturesFile {
    var pos: nat

    constructor()
      ensures pos == 0
    {
      pos := 0;
    }

    /** `FileFeatures::read`: copies bytes from `pos` until `size` are copied or the file ends. */
    method Read(size: nat) returns (len: nat, buffer: seq<nat>)
      modifies this
      ensures buffer == FeatureBytes(old(pos), size) && len == |buffer|
      ensures pos == old(pos) + len
    {
      len := 0;
      buffer := [];
      while len < size && pos < |Features|
        invariant len <= size && pos == old(pos) + len
        invariant buffer == FeatureBytes(old(pos), len) && |buffer| == len
      {
        buffer := buffer + [Features[pos]];
        len := len + 1;
        pos := pos + 1;
      }
    }

    /** `FileFeatures::seek`: a position inside the file is taken, any other is refused. */
    method Seek(p: nat) returns (r: int)
      modifies this
      ensures p < |Features| ==> r == 0 && pos == p
      ensures p >= |Features| ==> r == -(ENXIO as int) && pos == old(pos)
    {
      if p < |Features| {
        pos := p;
        r := 0;
      } else {
        r := -(ENXIO as int);
      }
    }

    /** `FileFeatures::flen`. */
    method FLen() returns (n: nat)
      ensures n == |Features| == 5
    {
      n := |Features|;
    }
  }

  // ------------------------------------------------------------- file names

  /** `std::filesystem::path` `/` for a relative name: a separator unless the directory is empty or ends in one. */
  function JoinPath(dir: string, name: string): (p: string)
    ensures |p| >= |dir| + |name| && p[..|dir|] == dir && p[|p| - |name|..] == name
  {
    if dir == [] || dir[|dir| - 1] == '/' then dir + name else dir + "/" + name
  }

  /** Whether a guest name is used as it is: empty, absolute, or one of the two special names. */
  predicate Kept(name: string)
  {
    name == [] || name[0] == '/' || name == ":tt" || name == ":semihosting-features"
  }

  /**
   * `get_full_path`: relative names are resolved against the working
   * directory, every other name is passed through.
   */
  function FullPath(cwd: string, name: string): (p: string)
    ensures Kept(name) ==> p == name
    ensures !Kept(name) ==> p == JoinPath(cwd, name)
  {
    if !Kept(name) then JoinPath(cwd, name) else name
  }

  /** A resolved name is the working directory followed by the name, and a resolved name is kept. */
  lemma FullPathResolves(cwd: string, name: string)
    requires !Kept(name) && |cwd| > 0 && cwd[0] == '/'
    ensures var p := FullPath(cwd, name);
            p[..|cwd|] == cwd && p[|p| - |name|..] == name && Kept(p) && FullPath(cwd, p) == p
  {
    var p := FullPath(cwd, name);
    assert p[0] == p[..|cwd|][0];
  }

  // ------------------------------------------------------------ file modes

  /** `fmodes`, indexed by the guest's mode number. */
  const Modes: seq<string> := ["r", "rb", "r+", "r+b", "w", "wb", "w+", "w+b", "a", "ab", "a+", "a+b"]

  /** `File::open` on `:tt`: the console stream for a read, write or append mode, EINVAL otherwise. */
  function TtOpen(mode: string): (r: int)
    ensures r == 0 <==> |mode| > 0 && mode[0] in {'r', 'w', 'a'}
    ensures r != 0 ==> r == -(EINVAL as int)
  {
    if |mode| > 0 && mode[0] in {'r', 'w', 'a'} then 0 else -(EINVAL as int)
  }

  /** Every mode a guest can name opens the console. */
  lemma ModesOpenConsole(fmode: nat)
    requires fmode < |Modes|
    ensures TtOpen(Modes[fmode]) == 0
  {
  }

  /** `File::open`'s host mode: a write mode is turned into an append mode, so no file is truncated. */
  function HostMode(mode: string): (m: string)
    ensures |m| == |mode|
    ensures |mode| > 0 ==> m[0] == (if mode[0] == 'w' then 'a' else mode[0]) && m[1..] == mode[1..]
  {
    if |mode| > 0 && mode[0] == 'w' then "a" + mode[1..] else mode
  }

  /** No guest mode reaches the host as a truncating write mode. */
  lemma HostModesAppend(fmode: nat)
    requires fmode < |Modes|
    ensures HostMode(Modes[fmode])[0] in {'r', 'a'}
  {
  }

  // ------------------------------------------------------------ the table

  /** An entry of `files`: a host stdio file (its resolved name and host mode) or the magic file. */
  datatype FileObj = HostFile(path: string, mode: string) | Magic(f: FeaturesFile)

  /** The corrected handle check: a handle names an open slot of the table. */
  predicate Open(files: seq<Option<FileObj>>, handle: nat)
  {
    handle < |files| && files[handle].Some?
  }

  /** The handle check as written: only handles above the table's size are refused. */
  predicate GuardRefusesAsWritten(size: nat, handle: nat)
  {
    handle > size
  }

  /**
   * The handle check of callWrite, callRead, callIsTTY, callSeek and callFLen
   * as written: `Some(true)` lets the call through to an open file,
   * `Some(false)` refuses it with `EBADF`, and `None` stands for the read of
   * `files[handle]` outside the table, which the check does not prevent.
   */
  function HandleCheckAsWritten(files: seq<Option<FileObj>>, handle: nat): (r: Option<bool>)
    ensures r.None? <==> handle == |files|
  {
    if GuardRefusesAsWritten(|files|, handle) then Some(false)
    else if handle == |files| then None
    else Some(files[handle].Some?)
  }

  /** As written, the handle one past the end of the table reaches a read outside it; the corrected check refuses it. */
  lemma EndHandleReadsOutsideAsWritten(files: seq<Option<FileObj>>)
    ensures HandleCheckAsWritten(files, |files|).None?
    ensures !Open(files, |files|)
  {
  }

  /** Wherever the as-written check is defined it agrees with the corrected one. */
  lemma HandleCheckAgrees(files: seq<Option<FileObj>>, handle: nat)
    ensures HandleCheckAsWritten(files, handle).Some? ==> HandleCheckAsWritten(files, handle).value == Open(files, handle)
  {
  }

  /** The corrected check refuses that handle and every closed slot, and lets only open slots through. */
  lemma OpenIsInRange(files: seq<Option<FileObj>>, handle: nat)
    ensures Open(files, handle) ==> handle < |files| && files[handle].Some?
    ensures handle >= |files| ==> !Open(files, handle)
    ensures !GuardRefusesAsWritten(|files|, handle) && !Open(files, handle) ==>
              handle == |files| || files[handle].None?
  {
  }

  /** `File::flen` as written: after measuring the file it reports 0, or `-errno` on failure. */
  function HostFLenAsWritten(hostLen: int): int
  {
    if hostLen < 0 then hostLen else 0
  }

  /** `File::flen` as evidently intended: the measured length, or `-errno` on failure. */
  function HostFLen(hostLen: int): (r: int)
    ensures r >= 0 ==> r == hostLen
    ensures r < 0 <==> hostLen < 0
  {
    hostLen
  }

  /** As written, a 10-byte host file has length 0; with the fix, it has length 10. */
  lemma FLenOfHostFile()
    ensures HostFLenAsWritten(10) == 0
    ensures HostFLen(10) == 10
  {
  }

  /** `callClose` as written: `None` stands for the call through the null pointer of a closed slot. */
  function CloseAsWritten(files: seq<Option<FileObj>>, handle: nat): Option<(seq<Option<FileObj>>, Ret)>
  {
    if handle >= |files| then Some((files, RetError(EBADF)))
    else if files[handle].None? then None
    else Some((files[handle := None], RetOk(0)))
  }

  /** As written, closing a handle twice calls through a null pointer. */
  lemma CloseTwiceAsWritten(fo: FileObj)
    ensures var once := CloseAsWritten([Some(fo)], 0);
            once.Some? && once.value.1 == RetOk(0) && CloseAsWritten(once.value.0, 0).None?
  {
  }

  /** `callGetCmdLine`'s test as written: the command line and its terminator must be shorter than the buffer. */
  predicate CmdLineFitsAsWritten(cmdLen: nat, size: nat)
  {
    cmdLen + 1 < size
  }

  /** As written, a buffer that holds the command line and its terminator exactly is refused. */
  lemma ExactBufferRefused(cmdLen: nat)
    ensures !CmdLineFitsAsWritten(cmdLen, cmdLen + 1)
  {
  }

  /** The test as evidently intended: the command line and its terminator fit in the buffer. */
  predicate CmdLineFits(cmdLen: nat, size: nat)
  {
    cmdLen + 1 <= size
  }

  /** `callGetCmdLine`'s text: the program name, a space and its arguments. */
  function CmdLine(name: string, args: string): (cmd: string)
    ensures |cmd| == |name| + 1 + |args|
  {
    name + " " + args
  }

  /** With the fix, a buffer is accepted exactly when the terminated command line fits in it. */
  lemma CmdLineFitsExactly(name: string, args: string, size: nat)
    ensures CmdLineFits(|CmdLine(name, args)|, size) <==> |CmdLine(name, args) + ['\0']| <= size
    ensures CmdLineFitsAsWritten(|CmdLine(name, args)|, size) ==> CmdLineFits(|CmdLine(name, args)|, size)
  {
  }

  /** `callElapsed32`'s two words: the low and the high half of the 64-bit tick. */
  function Halves(tick: nat): (h: (nat, nat))
    requires tick < U64
    ensures h.0 < 0x1_0000_0000 && h.1 < 0x1_0000_0000
    ensures h.0 + h.1 * 0x1_0000_0000 == tick
  {
    (tick % 0x1_0000_0000, tick / 0x1_0000_0000)
  }

  /** `ADP_Stopped_ApplicationExit`. */
  const ApplicationExit: nat := 0x20026

  /** The semihosting state: the file table, the last errno, and the HTIF exit code and done flag it sets. */
  class RiscvSemihosting {
    var files: seq<Option<FileObj>>
    var semiErrno: nat
    var exitCode: nat
    var done: bool

    /** The magic files the table holds: what a read or a seek may move. */
    ghost function MagicFiles(): set<FeaturesFile>
      reads this
    {
      set i | 0 <= i < |files| && files[i].Some? && files[i].value.Magic? :: files[i].value.f
    }

    constructor()
      ensures files == [] && semiErrno == 0 && exitCode == 0 && !done
    {
      files := [];
      semiErrno := 0;
      exitCode := 0;
      done := false;
    }

    /**
     * `callOpen`: an unknown mode number or a null name is EINVAL, a name
     * that cannot be read is ERANGE; otherwise the resolved name is status
     * (the magic file always opens, `:tt` opens the console, any other name
     * opens as the host says) and, on success, appended to the table, its
     * index being the handle.
     */
    method CallOpen(fmode: int, nameBase: nat, name: Option<string>, cwd: string, hostOpen: int) returns (r: Ret)
      modifies this
      ensures exitCode == old(exitCode) && done == old(done) && semiErrno == r.errno
      ensures !(0 <= fmode < |Modes|) || nameBase == 0 ==> r == RetError(EINVAL) && files == old(files)
      ensures 0 <= fmode < |Modes| && nameBase != 0 && name.None? ==> r == RetError(ERANGE) && files == old(files)
      ensures 0 <= fmode < |Modes| && nameBase != 0 && name.Some? ==>
                var p := FullPath(cwd, name.value);
                if p == ":semihosting-features" then
                  r == RetOk(|old(files)|) && |files| == |old(files)| + 1 && files[..|old(files)|] == old(files) &&
                  files[|old(files)|].Some? && files[|old(files)|].value.Magic? &&
                  fresh(files[|old(files)|].value.f) && files[|old(files)|].value.f.pos == 0
                else
                  var status := if p == ":tt" then 0 else hostOpen;
                  if status < 0 then r == RetError(-status) && files == old(files)
                  else r == RetOk(|old(files)|) && files == old(files) + [Some(HostFile(p, Modes[fmode]))]
    {
      if !(0 <= fmode < |Modes|) || nameBase == 0 {
        r := RetError(EINVAL);
      } else if name.None? {
        r := RetError(ERANGE);
      } else {
        var p := FullPath(cwd, name.value);
        if p == ":semihosting-features" {
          var f := new FeaturesFile();
          files := files + [Some(Magic(f))];
          r := RetOk(|files| - 1);
        } else {
          var status := if p == ":tt" then TtOpen(Modes[fmode]) else hostOpen;
          if status < 0 {
            r := RetError(-status);
          } else {
            files := files + [Some(HostFile(p, Modes[fmode]))];
            r := RetOk(|files| - 1);
          }
        }
      }
      semiErrno := r.errno;
    }

    /** `callClose`, with closed slots refused: the slot is emptied and its handle is not reused. */
    method CallClose(handle: nat) returns (r: Ret)
      modifies this
      ensures exitCode == old(exitCode) && done == old(done) && semiErrno == r.errno
      ensures !Open(old(files), handle) ==> r == RetError(EBADF) && files == old(files)
      ensures Open(old(files), handle) ==> r == RetOk(0) && files == old(files)[handle := None]
    {
      if handle >= |files| || files[handle].None? {
        r := RetError(EBADF);
      } else {
        files := files[handle := None];
        r := RetOk(0);
      }
      semiErrno := r.errno;
    }

    /**
     * `callWrite`: the value is the number of bytes not written; a bad
     * handle writes nothing, the magic file accepts nothing, a host file
     * takes what the host wrote.
     */
    method CallWrite(handle: nat, size: nat, hostWritten: nat) returns (r: Ret)
      requires hostWritten <= size
      modifies this
      ensures files == old(files) && exitCode == old(exitCode) && done == old(done) && semiErrno == r.errno
      ensures !Open(files, handle) ==> r == Ret(size, EBADF)
      ensures Open(files, handle) && files[handle].value.Magic? ==> r == RetOk(size)
      ensures Open(files, handle) && files[handle].value.HostFile? ==> r == RetOk(size - hostWritten)
    {
      if handle >= |files| || files[handle].None? {
        r := Ret(size, EBADF);
      } else if files[handle].value.Magic? {
        r := RetOk(size);
      } else {
        r := RetOk(size - hostWritten);
      }
      semiErrno := r.errno;
    }

    /**
     * `callRead`: the value is the number of bytes not read, and `data` is
     * what reaches guest memory. The magic file reads from its position; a
     * host file gives what the host read, or `-errno`.
     */
    method CallRead(handle: nat, size: nat, hostRead: int, hostData: seq<nat>) returns (r: Ret, data: seq<nat>)
      requires hostRead >= 0 ==> hostRead <= size && |hostData| == hostRead
      modifies this, MagicFiles()
      ensures files == old(files) && exitCode == old(exitCode) && done == old(done) && semiErrno == r.errno
      ensures !Open(files, handle) ==> r == Ret(size, EBADF) && data == []
      ensures Open(files, handle) && files[handle].value.Magic? ==>
                var f := files[handle].value.f;
                data == FeatureBytes(old(f.pos), size) && f.pos == old(f.pos) + |data| &&
                r == RetOk(size - |data|)
      ensures Open(files, handle) && files[handle].value.HostFile? ==>
                if hostRead < 0 then r == Ret(size, -hostRead) && data == []
                else r == RetOk(size - hostRead) && data == hostData
      ensures forall g :: g in MagicFiles() && !(Open(files, handle) && files[handle].value.Magic? && files[handle].value.f == g) ==>
                g.pos == old(g.pos)
    {
      data := [];
      if handle >= |files| || files[handle].None? {
        r := Ret(size, EBADF);
      } else {
        if files[handle].value.Magic? {
          var f := files[handle].value.f;
          var n;
          n, data := f.Read(size);
          r := RetOk(size - n);
        } else if hostRead < 0 {
          r := Ret(size, -hostRead);
        } else {
          data := hostData;
          r := RetOk(size - hostRead);
        }
      }
      semiErrno := r.errno;
    }

    /** `callIsTTY`: only the console is a terminal. */
    method CallIsTty(handle: nat) returns (r: Ret)
      modifies this
      ensures files == old(files) && exitCode == old(exitCode) && done == old(done) && semiErrno == r.errno
      ensures !Open(files, handle) ==> r == RetError(EBADF)
      ensures Open(files, handle) ==>
                r == RetOk(if files[handle].value.HostFile? && files[handle].value.path == ":tt" then 1 else 0)
    {
      if handle >= |files| || files[handle].None? {
        r := RetError(EBADF);
      } else {
        var tty := files[handle].value.HostFile? && files[handle].value.path == ":tt";
        r := RetOk(if tty then 1 else 0);
      }
      semiErrno := r.errno;
    }

    /** `callSeek`: the magic file takes positions inside it; a host file reports what `fseek` returned. */
    method CallSeek(handle: nat, p: nat, hostSeek: int) returns (r: Ret)
      modifies this, MagicFiles()
      ensures files == old(files) && exitCode == old(exitCode) && done == old(done) && semiErrno == r.errno
      ensures !Open(files, handle) ==> r == RetError(EBADF)
      ensures Open(files, handle) && files[handle].value.Magic? ==>
                var f := files[handle].value.f;
                if p < |Features| then r == RetOk(0) && f.pos == p
                else r == RetError(ENXIO) && f.pos == old(f.pos)
      ensures Open(files, handle) && files[handle].value.HostFile? ==>
                r == if hostSeek < 0 then RetError(-hostSeek) else RetOk(0)
      ensures forall g :: g in MagicFiles() && !(Open(files, handle) && files[handle].value.Magic? && files[handle].value.f == g) ==>
                g.pos == old(g.pos)
    {
      if handle >= |files| || files[handle].None? {
        r := RetError(EBADF);
      } else {
        var ret: int;
        if files[handle].value.Magic? {
          var f := files[handle].value.f;
          ret := f.Seek(p);
        } else {
          ret := hostSeek;
        }
        r := if ret < 0 then RetError(-ret) else RetOk(0);
      }
      semiErrno := r.errno;
    }

    /** `callFLen`, with the host length reported as measured: 5 for the magic file. */
    method CallFLen(handle: nat, hostLen: int) returns (r: Ret)
      modifies this
      ensures files == old(files) && exitCode == old(exitCode) && done == old(done) && semiErrno == r.errno
      ensures !Open(files, handle) ==> r == RetError(EBADF)
      ensures Open(files, handle) && files[handle].value.Magic? ==> r == RetOk(5)
      ensures Open(files, handle) && files[handle].value.HostFile? ==>
                r == if hostLen < 0 then RetError(-hostLen) else RetOk(hostLen)
    {
      if handle >= |files| || files[handle].None? {
        r := RetError(EBADF);
      } else {
        var ret: int;
        if files[handle].value.Magic? {
          var f := files[handle].value.f;
          var n := f.FLen();
          ret := n;
        } else {
          ret := HostFLen(hostLen);
        }
        r := if ret < 0 then RetError(-ret) else RetOk(ret);
      }
      semiErrno := r.errno;
    }

    /** `callIsError`: 1 exactly for a negative status. */
    method CallIsError(status: int) returns (r: Ret)
      modifies this
      ensures files == old(files) && exitCode == old(exitCode) && done == old(done) && semiErrno == 0
      ensures r.errno == 0 && (r.value == 1 <==> status < 0) && (r.value == 0 <==> status >= 0)
    {
      r := RetOk(if status < 0 then 1 else 0);
      semiErrno := r.errno;
    }

    /** `callErrno`: the errno of the previous call, as value and errno. */
    method CallErrno() returns (r: Ret)
      modifies this
      ensures r == Ret(old(semiErrno), old(semiErrno)) && semiErrno == old(semiErrno)
      ensures files == old(files) && exitCode == old(exitCode) && done == old(done)
    {
      r := Ret(semiErrno, semiErrno);
      semiErrno := r.errno;
    }

    /** `callExit32`: the run ends with exit code 0. */
    method CallExit32() returns (r: Ret)
      modifies this
      ensures r == RetOk(0) && semiErrno == 0 && files == old(files)
      ensures done && exitCode == 0
    {
      exitCode := 0;
      done := true;
      r := RetOk(0);
      semiErrno := r.errno;
    }

    /**
     * `callExit64` (and `callExitExtended`): the run ends; the exit code is
     * the subcode for an application exit and 1 for any other reason.
     */
    method CallExit64(code: nat, subcode: nat) returns (r: Ret)
      modifies this
      ensures r == RetOk(0) && semiErrno == 0 && files == old(files) && done
      ensures code == ApplicationExit ==> exitCode == subcode
      ensures code != ApplicationExit ==> exitCode == 1
    {
      if code == ApplicationExit {
        exitCode := subcode;
      } else {
        exitCode := 1;
      }
      done := true;
      r := RetOk(0);
      semiErrno := r.errno;
    }

    /** `callElapsed32`: the low and the high word of the tick, written one after the other. */
    method CallElapsed32(tick: nat) returns (r: Ret, low: nat, high: nat)
      requires tick < U64
      modifies this
      ensures r == RetOk(0) && semiErrno == 0 && files == old(files)
      ensures exitCode == old(exitCode) && done == old(done)
      ensures low < 0x1_0000_0000 && high < 0x1_0000_0000 && low + high * 0x1_0000_0000 == tick
    {
      var h := Halves(tick);
      low, high := h.0, h.1;
      r := RetOk(0);
      semiErrno := r.errno;
    }

    /**
     * `callGetCmdLine`, with the buffer test corrected: when the terminated
     * command line fits, it is written with its terminator and the size
     * becomes its length; otherwise the call fails with errno 0 and writes
     * nothing.
     */
    method CallGetCmdLine(name: string, args: string, size: nat) returns (r: Ret, written: Option<string>, newSize: nat)
      modifies this
      ensures files == old(files) && exitCode == old(exitCode) && done == old(done) && semiErrno == r.errno
      ensures var cmd := CmdLine(name, args);
              if CmdLineFits(|cmd|, size) then r == RetOk(0) && written == Some(cmd + ['\0']) && newSize == |cmd|
              else r == RetError(0) && written.None? && newSize == size
    {
      var cmd := CmdLine(name, args);
      if CmdLineFits(|cmd|, size) {
        r, written, newSize := RetOk(0), Some(cmd + ['\0']), |cmd|;
      } else {
        r, written, newSize := RetError(0), None, size;
      }
      semiErrno := r.errno;
    }
  }
}
