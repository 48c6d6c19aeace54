/**
 * The `load` command: argument parsing, the names of the companion
 * checkpoint files, and the chain of encoding tests that decides which
 * readers run. File reading itself is recorded as a log of events.
 */
module LoadCmd {
  import opened Wrappers
  import Text

  // ---------------------------------------------------------------------------
  // argument parsing

  /** What the argument loop leaves behind when it succeeds. */
  datatype Options = Options(encoding: string, filename: string, serial: bool, readvel: bool)

  /** The encoding a flag selects, if it is an encoding flag. */
  function EncodingFlag(arg: string): (e: Option<string>)
    ensures arg == "-xml" ==> e == Some("base64")
    ensures e.Some? ==> |arg| >= 1 && arg[0] == '-'
  {
    if arg == "-text" then Some("text")
    else if arg == "-dump" then Some("dump")
    else if arg == "-fast" then Some("fast")
    else if arg == "-states" then Some("states")
    else if arg == "-proj" then Some("proj")
    else if arg == "-proj2nd" then Some("proj2nd")
    else if arg == "-full" then Some("full")
    else if arg == "-states-old" then Some("states-old")
    else if arg == "-xml" then Some("base64")
    else None
  }

  /** The flags the loop accepts anywhere. */
  predicate IsFlag(arg: string)
  {
    EncodingFlag(arg).Some? || arg == "-vel" || arg == "-serial"
  }

  /** The test arg[0] != '-'; the empty argument reads its terminating NUL. */
  predicate NotDashed(arg: string)
  {
    |arg| == 0 || arg[0] != '-'
  }

  /** The encoding after reading args: that of the last encoding flag,
      "dump" when there is none. */
  function LastEncoding(args: seq<string>): string
  {
    if |args| == 0 then "dump"
    else match EncodingFlag(args[|args| - 1])
      case Some(e) => e
      case None => LastEncoding(args[..|args| - 1])
  }

  /** The arguments accepted: 2 <= argc <= 4, every argument before the last
      a flag, and the last one a file name (not starting with '-'). */
  predicate Accepted(argv: seq<string>)
  {
    2 <= |argv| <= 4 &&
    (forall i :: 1 <= i < |argv| - 1 ==> IsFlag(argv[i])) &&
    NotDashed(argv[|argv| - 1])
  }

  /** Accepted, stated on the arguments after the command name. */
  lemma AcceptedByArgs(argv: seq<string>)
    requires 2 <= |argv| <= 4
    ensures Accepted(argv) <==>
              (forall k :: 0 <= k < |argv[1..]| - 1 ==> IsFlag(argv[1..][k])) && NotDashed(argv[1..][|argv| - 2])
  {
    var args := argv[1..];
    if forall k :: 0 <= k < |args| - 1 ==> IsFlag(args[k]) {
      forall i | 1 <= i < |argv| - 1
        ensures IsFlag(argv[i])
      {
        assert argv[i] == args[i - 1];
      }
    }
    if Accepted(argv) {
      forall k | 0 <= k < |args| - 1
        ensures IsFlag(args[k])
      {
        assert args[k] == argv[k + 1];
      }
    }
  }

  /** -vel and -serial are two different flags, neither of them an encoding flag. */
  lemma OptionFlags()
    ensures EncodingFlag("-vel").None? && EncodingFlag("-serial").None?
    ensures "-vel" != "-serial"
  {
  }

  /** One more argument read: what the prefix ending at it holds. */
  lemma PrefixStep(args: seq<string>, j: nat)
    requires j < |args|
    ensures LastEncoding(args[..j + 1]) ==
              (if EncodingFlag(args[j]).Some? then EncodingFlag(args[j]).value else LastEncoding(args[..j]))
    ensures forall x :: x in args[..j + 1] <==> x in args[..j] || x == args[j]
  {
    assert args[..j + 1] == args[..j] + [args[j]];
    assert args[..j + 1][..j] == args[..j];
  }

  /**
   * The argument loop of action over the arguments after the command name.
   * None is the `return 1` of an unknown argument and of a missing file name.
   */
  method ScanArgs(args: seq<string>) returns (r: Option<Options>)
    requires |args| >= 1
    ensures r.Some? <==> (forall k :: 0 <= k < |args| - 1 ==> IsFlag(args[k])) && NotDashed(args[|args| - 1])
    ensures r.Some? ==> r.value.filename == args[|args| - 1]
    ensures r.Some? ==> r.value.encoding == LastEncoding(args)
    ensures r.Some? ==> (r.value.serial <==> "-serial" in args)
    ensures r.Some? ==> (r.value.readvel <==> "-vel" in args)
  {
    OptionFlags();
    var encoding := "dump";
    var filename: Option<string> := None;
    var serial := false;
    var readvel := false;
    var j := 0;
    while j < |args|
      invariant 0 <= j <= |args|
      invariant forall k :: 0 <= k < j && k < |args| - 1 ==> IsFlag(args[k])
      invariant encoding == LastEncoding(args[..j])
      invariant serial <==> "-serial" in args[..j]
      invariant readvel <==> "-vel" in args[..j]
      invariant filename.Some? ==> j == |args| && filename.value == args[|args| - 1] && NotDashed(args[|args| - 1])
      invariant j == |args| && filename.None? ==> !NotDashed(args[|args| - 1]) || IsFlag(args[|args| - 1])
    {
      var arg := args[j];
      PrefixStep(args, j);
      var flag := EncodingFlag(arg);
      if flag.Some? {
        encoding := flag.value;
      } else if arg == "-vel" {
        readvel := true;
      } else if arg == "-serial" {
        serial := true;
      } else if NotDashed(arg) && j == |args| - 1 {
        filename := Some(arg);
      } else {
        return None;
      }
      j := j + 1;
    }
    assert args[..j] == args;
    if filename.None? {
      return None;
    }
    r := Some(Options(encoding, filename.value, serial, readvel));
  }

  /**
   * The argument checks of action: the argument count, then the loop.
   * None is the `return 1` of any of them.
   */
  method ParseArgs(argv: seq<string>) returns (r: Option<Options>)
    ensures r.Some? <==> Accepted(argv)
    ensures r.Some? ==> r.value.filename == argv[|argv| - 1]
    ensures r.Some? ==> r.value.encoding == LastEncoding(argv[1..])
    ensures r.Some? ==> (r.value.serial <==> "-serial" in argv[1..])
    ensures r.Some? ==> (r.value.readvel <==> "-vel" in argv[1..])
  {
    if !(|argv| >= 2 && |argv| <= 4) {
      return None;
    }
    AcceptedByArgs(argv);
    r := ScanArgs(argv[1..]);
  }

  /** A later encoding flag overrides every earlier one. */
  lemma LastFlagWins(args: seq<string>, flag: string)
    requires EncodingFlag(flag).Some?
    ensures LastEncoding(args + [flag]) == EncodingFlag(flag).value
  {
  }

  /** Other flags do not change the encoding. */
  lemma OtherFlagsKeepEncoding(args: seq<string>, flag: string)
    requires flag == "-vel" || flag == "-serial"
    ensures LastEncoding(args + [flag]) == LastEncoding(args)
  {
    assert (args + [flag])[..|args|] == args;
  }

  // ---------------------------------------------------------------------------
  // companion file names

  const LastRhorSuffix: string := ".lastrhor"

  /**
   * The file holding the last mixed density of spin ispin: the checkpoint
   * name, then (with several spins) ".s" and the spin number in decimal,
   * then ".lastrhor". The spin number reads back from the name.
   */
  function RhorFile(file: string, nspin: nat, ispin: nat): (name: string)
    ensures |name| >= |file| + |LastRhorSuffix| && name[..|file|] == file
    ensures name[|name| - |LastRhorSuffix|..] == LastRhorSuffix
    ensures nspin == 1 ==> |name| == |file| + |LastRhorSuffix|
    ensures nspin != 1 ==>
              |name| > |file| + 2 + |LastRhorSuffix| && name[|file|..|file| + 2] == ".s" &&
              Text.AllDigits(name[|file| + 2..|name| - |LastRhorSuffix|]) &&
              Text.DigitsValue(name[|file| + 2..|name| - |LastRhorSuffix|]) == ispin
  {
    if nspin == 1 then file + LastRhorSuffix
    else
      var digits := Text.NatToString(ispin);
      var name := file + ".s" + digits + LastRhorSuffix;
      assert name[|file| + 2..|name| - |LastRhorSuffix|] == digits;
      Text.NatRoundTrip(ispin);
      name
  }

  /** With several spins, each spin reads its own density file. */
  lemma RhorFilesDistinct(file: string, nspin: nat, a: nat, b: nat)
    requires nspin != 1 && a != b
    ensures RhorFile(file, nspin, a) != RhorFile(file, nspin, b)
  {
  }

  /** The Hamiltonian wave function file. */
  function HamwfFile(file: string): (name: string)
    ensures |name| == |file| + 5 && name[..|file|] == file
  {
    file + "hamwf"
  }

  /** The wave-function velocity file. */
  function WfvFile(file: string): (name: string)
    ensures |name| == |file| + 3 && name[..|file|] == file
  {
    file + "wfv"
  }

  /** The companion files never coincide with each other or with the density files. */
  lemma CompanionFilesDistinct(file: string, nspin: nat, ispin: nat)
    ensures HamwfFile(file) != WfvFile(file)
    ensures HamwfFile(file) != file && WfvFile(file) != file
    ensures RhorFile(file, nspin, ispin) != WfvFile(file)
    ensures RhorFile(file, nspin, ispin) != HamwfFile(file)
  {
    var r := RhorFile(file, nspin, ispin);
    assert r[|r| - 1] == 'r';
    assert WfvFile(file)[|file| + 2] == 'v';
    assert HamwfFile(file)[|file| + 4] == 'f';
  }

  // ---------------------------------------------------------------------------
  // the encoding dispatch

  /** The four checkpoint readers. */
  datatype Format = Dump | Fast | States | StatesOld

  /** The encoding that selects a reader. */
  function EncodingOf(f: Format): (e: string)
    ensures e in {"dump", "fast", "states", "states-old"}
  {
    match f
    case Dump => "dump"
    case Fast => "fast"
    case States => "states"
    case StatesOld => "states-old"
  }

  /** The reader an encoding selects, if any. */
  function FormatOf(encoding: string): (f: Option<Format>)
    ensures f.Some? ==> EncodingOf(f.value) == encoding
    ensures encoding in {"dump", "fast", "states", "states-old"} ==> f.Some?
  {
    if encoding == "dump" then Some(Dump)
    else if encoding == "fast" then Some(Fast)
    else if encoding == "states" then Some(States)
    else if encoding == "states-old" then Some(StatesOld)
    else None
  }

  /** Control settings the readers consult. */
  datatype Settings = Settings(extraMemory: int, ultrasoft: bool, tddftInvolved: bool, atomsDyn: string, nspin: nat)

  /** What the command does, in order. */
  datatype Event =
    | ReadWf(format: Format, file: string)
    | ReadMditer(file: string)
    | SetHighmem
    | InitUsfns
    | ReadHamwf(format: Format, file: string)
    | ReadRhor(file: string)
    | ReadWfv(format: Format, file: string)
    | VelocityWarning
    | SerialIgnored
    | ReadProj(file: string)
    | ReadFull(file: string)
    | ReadProj2nd(file: string)
    | XmlDeprecated

  /**
   * One checkpoint block (dump, fast, states or states-old): the wave
   * function and the MD iteration count, then either the Hamiltonian wave
   * function (TDDFT) or one density file per spin, then the velocities.
   */
  method ReadCheckpoint(f: Format, file: string, st: Settings, readvel: bool, serial: bool)
      returns (log: seq<Event>)
    ensures |log| >= 2 && log[0] == ReadWf(f, file) && log[1] == ReadMditer(file)
    ensures ReadHamwf(f, HamwfFile(file)) in log <==> st.tddftInvolved
    ensures forall ispin: nat :: ispin < st.nspin ==>
              (ReadRhor(RhorFile(file, st.nspin, ispin)) in log <==> !st.tddftInvolved)
    ensures ReadWfv(f, WfvFile(file)) in log <==> readvel && st.atomsDyn != "LOCKED"
    ensures VelocityWarning in log <==> readvel && st.atomsDyn == "LOCKED"
    ensures SerialIgnored in log <==> serial
    ensures XmlDeprecated !in log
    ensures forall e :: e in log && e.ReadWf? ==> e == ReadWf(f, file)
    ensures forall e :: e in log ==> !e.ReadProj? && !e.ReadFull? && !e.ReadProj2nd?
  {
    var state := ReadState(f, file, st);
    var extras := ReadExtras(f, file, st, readvel, serial);
    log := state + extras;
  }

  /** The wave function, the MD iteration count, and then the Hamiltonian
      wave function (TDDFT) or the densities. */
  method ReadState(f: Format, file: string, st: Settings) returns (log: seq<Event>)
    ensures |log| >= 2 && log[0] == ReadWf(f, file) && log[1] == ReadMditer(file)
    ensures ReadHamwf(f, HamwfFile(file)) in log <==> st.tddftInvolved
    ensures forall ispin: nat :: ispin < st.nspin ==>
              (ReadRhor(RhorFile(file, st.nspin, ispin)) in log <==> !st.tddftInvolved)
    ensures forall e :: e in log ==>
              (e == ReadWf(f, file) || e == ReadMditer(file) || e.SetHighmem? ||
               e.InitUsfns? || e.ReadHamwf? || e.ReadRhor?)
  {
    log := [ReadWf(f, file), ReadMditer(file)];
    if st.extraMemory >= 3 {
      log := log + [SetHighmem];
    }
    if st.ultrasoft {
      log := log + [InitUsfns];
    }
    if st.tddftInvolved {
      log := log + [ReadHamwf(f, HamwfFile(file))];
    } else {
      var densities := ReadDensities(file, st.nspin);
      log := log + densities;
    }
  }

  /** The velocities (unless the atoms are locked) and the serial notice. */
  method ReadExtras(f: Format, file: string, st: Settings, readvel: bool, serial: bool) returns (log: seq<Event>)
    ensures ReadWfv(f, WfvFile(file)) in log <==> readvel && st.atomsDyn != "LOCKED"
    ensures VelocityWarning in log <==> readvel && st.atomsDyn == "LOCKED"
    ensures SerialIgnored in log <==> serial
    ensures forall e :: e in log ==> e.ReadWfv? || e.VelocityWarning? || e.SerialIgnored?
  {
    log := [];
    if readvel {
      if st.atomsDyn != "LOCKED" {
        log := log + [ReadWfv(f, WfvFile(file))];
      } else {
        log := log + [VelocityWarning];
      }
    }
    if serial {
      log := log + [SerialIgnored];
    }
  }

  /** The per-spin loop reading the last mixed density: one file per spin. */
  method ReadDensities(file: string, nspin: nat) returns (log: seq<Event>)
    ensures |log| == nspin
    ensures forall k :: 0 <= k < |log| ==> log[k] == ReadRhor(RhorFile(file, nspin, k))
    ensures forall ispin: nat :: ispin < nspin ==> ReadRhor(RhorFile(file, nspin, ispin)) in log
    ensures nspin != 1 ==> forall ispin: nat :: ReadRhor(RhorFile(file, nspin, ispin)) in log ==> ispin < nspin
  {
    log := [];
    var ispin := 0;
    while ispin < nspin
      invariant 0 <= ispin <= nspin && |log| == ispin
      invariant forall k :: 0 <= k < |log| ==> log[k] == ReadRhor(RhorFile(file, nspin, k))
    {
      log := log + [ReadRhor(RhorFile(file, nspin, ispin))];
      ispin := ispin + 1;
    }
    forall s: nat | nspin != 1 && ReadRhor(RhorFile(file, nspin, s)) in log
      ensures s < nspin
    {
      var k :| 0 <= k < |log| && log[k] == ReadRhor(RhorFile(file, nspin, s));
      if s != k {
        RhorFilesDistinct(file, nspin, s, k);
      }
    }
    forall s: nat | s < nspin
      ensures ReadRhor(RhorFile(file, nspin, s)) in log
    {
      assert log[s] == ReadRhor(RhorFile(file, nspin, s));
    }
  }

  /** The events that close every successful load. */
  function Epilogue(st: Settings): seq<Event>
  {
    (if st.extraMemory >= 3 then [SetHighmem] else []) + (if st.ultrasoft then [InitUsfns] else [])
  }

  /**
   * The dispatch as written: "dump" is tested on its own, "states" is an
   * else-branch of "fast", and the final else (XML deprecated) hangs off the
   * proj2nd/states-old pair, so it runs for every other encoding.
   */
  method DispatchAsWritten(encoding: string, file: string, st: Settings, readvel: bool, serial: bool)
      returns (log: seq<Event>)
    ensures XmlDeprecated in log <==> encoding != "proj2nd" && encoding != "states-old"
    ensures forall e :: e in log && e.ReadWf? ==> EncodingOf(e.format) == encoding
    ensures FormatOf(encoding).Some? ==> ReadWf(FormatOf(encoding).value, file) in log
  {
    log := [];
    if encoding == "dump" {
      var block := ReadCheckpoint(Dump, file, st, readvel, serial);
      log := log + block;
    }
    if encoding == "fast" {
      var block := ReadCheckpoint(Fast, file, st, readvel, serial);
      log := log + block;
    } else if encoding == "states" {
      var block := ReadCheckpoint(States, file, st, readvel, serial);
      log := log + block;
    }
    if encoding == "proj" {
      log := log + [ReadProj(file)];
    }
    if encoding == "full" {
      log := log + [ReadFull(file)];
    }
    if encoding == "proj2nd" {
      log := log + [ReadProj2nd(file)];
    } else if encoding == "states-old" {
      var block := ReadCheckpoint(StatesOld, file, st, readvel, serial);
      log := log + block;
    } else {
      log := log + [XmlDeprecated];
    }
    log := log + Epilogue(st);
  }

  /** A plain `load -dump` through the chain as written: the dump is read
      and the XML deprecation error is reported as well. */
  method DumpLoadAsWritten(file: string, st: Settings) returns (log: seq<Event>)
    ensures ReadWf(Dump, file) in log
    ensures XmlDeprecated in log
  {
    log := DispatchAsWritten("dump", file, st, false, false);
  }

  /** The encodings some branch of the chain handles. */
  predicate Handled(encoding: string)
  {
    encoding in {"dump", "fast", "states", "proj", "full", "proj2nd", "states-old"}
  }

  /** The epilogue reads nothing: it only switches on high memory and
      initialises the ultrasoft functions. */
  lemma EpilogueReadsNothing(st: Settings)
    ensures forall e :: e in Epilogue(st) ==> e == SetHighmem || e == InitUsfns
  {
  }

  /**
   * The reads of the dispatch with the deprecation error reserved for the
   * encodings no branch handles ("text" and "base64", the XML formats).
   */
  method DispatchReads(encoding: string, file: string, st: Settings, readvel: bool, serial: bool)
      returns (log: seq<Event>)
    ensures XmlDeprecated in log <==> !Handled(encoding)
    ensures forall e :: e in log && e.ReadWf? ==> EncodingOf(e.format) == encoding
    ensures FormatOf(encoding).Some? ==> ReadWf(FormatOf(encoding).value, file) in log
    ensures encoding == "proj" <==> ReadProj(file) in log
    ensures encoding == "full" <==> ReadFull(file) in log
    ensures encoding == "proj2nd" <==> ReadProj2nd(file) in log
  {
    if encoding == "dump" {
      log := ReadCheckpoint(Dump, file, st, readvel, serial);
    } else if encoding == "fast" {
      log := ReadCheckpoint(Fast, file, st, readvel, serial);
    } else if encoding == "states" {
      log := ReadCheckpoint(States, file, st, readvel, serial);
    } else if encoding == "proj" {
      log := [ReadProj(file)];
    } else if encoding == "full" {
      log := [ReadFull(file)];
    } else if encoding == "proj2nd" {
      log := [ReadProj2nd(file)];
    } else if encoding == "states-old" {
      log := ReadCheckpoint(StatesOld, file, st, readvel, serial);
    } else {
      log := [XmlDeprecated];
    }
  }

  /** The corrected dispatch: its reads, then the epilogue. */
  method Dispatch(encoding: string, file: string, st: Settings, readvel: bool, serial: bool)
      returns (log: seq<Event>)
    ensures XmlDeprecated in log <==> !Handled(encoding)
    ensures forall e :: e in log && e.ReadWf? ==> EncodingOf(e.format) == encoding
    ensures FormatOf(encoding).Some? ==> ReadWf(FormatOf(encoding).value, file) in log
    ensures encoding == "proj" <==> ReadProj(file) in log
    ensures encoding == "full" <==> ReadFull(file) in log
    ensures encoding == "proj2nd" <==> ReadProj2nd(file) in log
  {
    var body := DispatchReads(encoding, file, st, readvel, serial);
    EpilogueReadsNothing(st);
    log := body + Epilogue(st);
  }

  /**
   * The whole action: parse, then dispatch. Returns the exit status and the
   * events; status 1 means nothing was read.
   */
  method Action(argv: seq<string>, st: Settings) returns (status: int, log: seq<Event>)
    ensures status == 0 <==> Accepted(argv)
    ensures status == 1 <==> !Accepted(argv)
    ensures status == 1 ==> log == []
    ensures status == 0 ==> (XmlDeprecated in log <==> !Handled(LastEncoding(argv[1..])))
    ensures status == 0 && FormatOf(LastEncoding(argv[1..])).Some? ==>
              ReadWf(FormatOf(LastEncoding(argv[1..])).value, argv[|argv| - 1]) in log
    ensures status == 0 ==> forall e :: e in log && e.ReadWf? ==> EncodingOf(e.format) == LastEncoding(argv[1..])
    ensures status == 0 ==> (LastEncoding(argv[1..]) == "proj" <==> ReadProj(argv[|argv| - 1]) in log)
    ensures status == 0 ==> (LastEncoding(argv[1..]) == "full" <==> ReadFull(argv[|argv| - 1]) in log)
    ensures status == 0 ==> (LastEncoding(argv[1..]) == "proj2nd" <==> ReadProj2nd(argv[|argv| - 1]) in log)
  {
    var parsed := ParseArgs(argv);
    if parsed.None? {
      return 1, [];
    }
    var o := parsed.value;
    log := Dispatch(o.encoding, o.filename, st, o.readvel, o.serial);
    status := 0;
  }

  /**
   * The whole action with the dispatch as written: the same parse, then the
   * chain in which the deprecation error follows every encoding other than
   * proj2nd and states-old.
   */
  method ActionAsWritten(argv: seq<string>, st: Settings) returns (status: int, log: seq<Event>)
    ensures status == 0 <==> Accepted(argv)
    ensures status == 1 ==> log == []
    ensures status == 0 ==>
              (XmlDeprecated in log <==> LastEncoding(argv[1..]) != "proj2nd" && LastEncoding(argv[1..]) != "states-old")
    ensures status == 0 && FormatOf(LastEncoding(argv[1..])).Some? ==>
              ReadWf(FormatOf(LastEncoding(argv[1..])).value, argv[|argv| - 1]) in log
  {
    var parsed := ParseArgs(argv);
    if parsed.None? {
      return 1, [];
    }
    var o := parsed.value;
    log := DispatchAsWritten(o.encoding, o.filename, st, o.readvel, o.serial);
    status := 0;
  }
}
