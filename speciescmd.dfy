/**
 * The `species` command: defines one species from a pseudopotential file,
 * or every species of a named pseudopotential collection installed under
 * the share directory. Reading a pseudopotential is a parameter (`read`),
 * and so is the list of elements a collection directory holds (`contents`).
 */
module SpeciesCommand {
  import opened Wrappers
  import opened Ctrl

  /** The sub-directory of `<share>/pseudopotentials/` for each accepted
      collection name: exactly one lower-case and one upper-case spelling. */
  const Directories: map<string, string> := map[
    "SG15" := "quantum-simulation.org/sg15/",
    "sg15" := "quantum-simulation.org/sg15/",
    "HSCV_LDA" := "quantum-simulation.org/hscv/lda/",
    "hscv_lda" := "quantum-simulation.org/hscv/lda/",
    "HSCV_PBE" := "quantum-simulation.org/hscv/pbe/",
    "hscv_pbe" := "quantum-simulation.org/hscv/pbe/",
    "pseudodojo_pbe" := "pseudo-dojo.org/nc-sr-04_pbe_standard/",
    "PSEUDODOJO_PBE" := "pseudo-dojo.org/nc-sr-04_pbe_standard/",
    "pseudodojo_pbe_stringent" := "pseudo-dojo.org/nc-sr-04_pbe_stringent/",
    "PSEUDODOJO_PBE_STRINGENT" := "pseudo-dojo.org/nc-sr-04_pbe_stringent/",
    "pseudodojo_pbesol" := "pseudo-dojo.org/nc-sr-04_pbesol_standard/",
    "PSEUDODOJO_PBESOL" := "pseudo-dojo.org/nc-sr-04_pbesol_standard/",
    "pseudodojo_pbesol_stringent" := "pseudo-dojo.org/nc-sr-04_pbesol_stringent/",
    "PSEUDODOJO_PBESOL_STRINGENT" := "pseudo-dojo.org/nc-sr-04_pbesol_stringent/",
    "pseudodojo_lda" := "pseudo-dojo.org/nc-sr-04_pw_standard/",
    "PSEUDODOJO_LDA" := "pseudo-dojo.org/nc-sr-04_pw_standard/",
    "pseudodojo_lda_stringent" := "pseudo-dojo.org/nc-sr-04_pw_stringent/",
    "PSEUDODOJO_LDA_STRINGENT" := "pseudo-dojo.org/nc-sr-04_pw_stringent/"
  ]

  /** The lower-case collection names, in the order the help text lists them. */
  const Names: seq<string> := [
    "sg15", "hscv_lda", "hscv_pbe", "pseudodojo_pbe", "pseudodojo_pbe_stringent",
    "pseudodojo_pbesol", "pseudodojo_pbesol_stringent", "pseudodojo_lda",
    "pseudodojo_lda_stringent"
  ]

  const PseudoDir: string := "/pseudopotentials/"

  /** The accepted spellings: the upper- and lower-case name of each collection. */
  lemma TableKeys()
    ensures Directories.Keys == {
              "SG15", "sg15",
              "HSCV_LDA", "hscv_lda",
              "HSCV_PBE", "hscv_pbe",
              "pseudodojo_pbe", "PSEUDODOJO_PBE",
              "pseudodojo_pbe_stringent", "PSEUDODOJO_PBE_STRINGENT",
              "pseudodojo_pbesol", "PSEUDODOJO_PBESOL",
              "pseudodojo_pbesol_stringent", "PSEUDODOJO_PBESOL_STRINGENT",
              "pseudodojo_lda", "PSEUDODOJO_LDA",
              "pseudodojo_lda_stringent", "PSEUDODOJO_LDA_STRINGENT"
            }
  {
  }

  /** The table entries of the quantum-simulation.org collections. */
  lemma QuantumSimulationEntries()
    ensures Directories["SG15"] == Directories["sg15"] == "quantum-simulation.org/sg15/"
    ensures Directories["HSCV_LDA"] == Directories["hscv_lda"] == "quantum-simulation.org/hscv/lda/"
    ensures Directories["HSCV_PBE"] == Directories["hscv_pbe"] == "quantum-simulation.org/hscv/pbe/"
  {
  }

  /** The table entries of the PseudoDojo PBE and PBEsol collections. */
  lemma DojoGgaEntries()
    ensures Directories["pseudodojo_pbe"] == Directories["PSEUDODOJO_PBE"] == "pseudo-dojo.org/nc-sr-04_pbe_standard/"
    ensures Directories["pseudodojo_pbe_stringent"] == Directories["PSEUDODOJO_PBE_STRINGENT"]
              == "pseudo-dojo.org/nc-sr-04_pbe_stringent/"
    ensures Directories["pseudodojo_pbesol"] == Directories["PSEUDODOJO_PBESOL"]
              == "pseudo-dojo.org/nc-sr-04_pbesol_standard/"
    ensures Directories["pseudodojo_pbesol_stringent"] == Directories["PSEUDODOJO_PBESOL_STRINGENT"]
              == "pseudo-dojo.org/nc-sr-04_pbesol_stringent/"
  {
  }

  /** The table entries of the PseudoDojo LDA collections. */
  lemma DojoLdaEntries()
    ensures Directories["pseudodojo_lda"] == Directories["PSEUDODOJO_LDA"] == "pseudo-dojo.org/nc-sr-04_pw_standard/"
    ensures Directories["pseudodojo_lda_stringent"] == Directories["PSEUDODOJO_LDA_STRINGENT"]
              == "pseudo-dojo.org/nc-sr-04_pw_stringent/"
  {
  }

  /**
   * The directory of a collection: the if-chain over the accepted
   * spellings, appending the collection's sub-directory to
   * `<share>/pseudopotentials/`. An unknown name is reported as not found.
   */
  method CollectionDir(share: string, colname: string) returns (found: bool, dirname: string)
    ensures found <==> colname in Directories
    ensures found ==> dirname == share + PseudoDir + Directories[colname]
  {
    TableKeys();
    QuantumSimulationEntries();
    DojoGgaEntries();
    DojoLdaEntries();
    dirname := share + PseudoDir;
    found := true;
    if colname == "SG15" || colname == "sg15" {
      dirname := dirname + "quantum-simulation.org/sg15/";
    } else if colname == "HSCV_LDA" || colname == "hscv_lda" {
      dirname := dirname + "quantum-simulation.org/hscv/lda/";
    } else if colname == "HSCV_PBE" || colname == "hscv_pbe" {
      dirname := dirname + "quantum-simulation.org/hscv/pbe/";
    } else if colname == "pseudodojo_pbe" || colname == "PSEUDODOJO_PBE" {
      dirname := dirname + "pseudo-dojo.org/nc-sr-04_pbe_standard/";
    } else if colname == "pseudodojo_pbe_stringent" || colname == "PSEUDODOJO_PBE_STRINGENT" {
      dirname := dirname + "pseudo-dojo.org/nc-sr-04_pbe_stringent/";
    } else if colname == "pseudodojo_pbesol" || colname == "PSEUDODOJO_PBESOL" {
      dirname := dirname + "pseudo-dojo.org/nc-sr-04_pbesol_standard/";
    } else if colname == "pseudodojo_pbesol_stringent" || colname == "PSEUDODOJO_PBESOL_STRINGENT" {
      dirname := dirname + "pseudo-dojo.org/nc-sr-04_pbesol_stringent/";
    } else if colname == "pseudodojo_lda" || colname == "PSEUDODOJO_LDA" {
      dirname := dirname + "pseudo-dojo.org/nc-sr-04_pw_standard/";
    } else if colname == "pseudodojo_lda_stringent" || colname == "PSEUDODOJO_LDA_STRINGENT" {
      dirname := dirname + "pseudo-dojo.org/nc-sr-04_pw_stringent/";
    } else {
      found := false;
    }
  }

  /** Every listed name is accepted, and the nine collections live in nine
      different directories. */
  lemma NamesAccepted()
    ensures forall n <- Names :: n in Directories
    ensures forall i, j :: 0 <= i < j < |Names| ==> Directories[Names[i]] != Directories[Names[j]]
  {
    TableKeys();
    QuantumSimulationEntries();
    DojoGgaEntries();
    DojoLdaEntries();
  }

  /** Only the two exact spellings are accepted: mixed case is not. */
  lemma MixedCaseRejected()
    ensures "Sg15" !in Directories && "Hscv_pbe" !in Directories
    ensures "PseudoDojo_pbe" !in Directories && "pseudodojo_PBE" !in Directories
  {
  }

  // ---------------------------------------------------------------------
  // help_msg

  const SyntaxText: string :=
    "\n species\n\n"
    + " syntax: species <name> <filename>\n\n"
    + "     or: species collection <collection_name>\n\n"
    + "   The species command defines a species name based on a file, or\n"

  const CollectionText: string :=
    "   if the 'collection' keyword is specified it will load a group of\n"
    + "   species. Valid options are:\n"

  /** One line of the collection list. */
  function ListLine(name: string): string
  {
    "      " + name + "\n"
  }

  function ListLines(names: seq<string>): string
  {
    if names == [] then "" else ListLine(names[0]) + ListLines(names[1..])
  }

  /** The help text as written: the return statement ends at its first
      semicolon, so only the syntax lines are returned. */
  function HelpMsgAsWritten(): string
  {
    SyntaxText
  }

  /** The help text evidently intended: the syntax lines, the explanation of
      collections and one line per collection name. */
  function HelpMsg(): (text: string)
    ensures forall n <- Names :: Listed(ListLine(n), text)
  {
    ListedInList(Names);
    ListedAfter(SyntaxText + CollectionText, ListLines(Names));
    SyntaxText + CollectionText + ListLines(Names)
  }

  predicate Listed(line: string, text: string)
  {
    exists i, j :: 0 <= i <= j <= |text| && text[i..j] == line
  }

  lemma {:induction false} ListedInList(names: seq<string>)
    ensures forall n <- names :: Listed(ListLine(n), ListLines(names))
  {
    if names != [] {
      ListedInList(names[1..]);
      var head := ListLine(names[0]);
      var text := ListLines(names);
      assert text[0..|head|] == head;
      forall n <- names
        ensures Listed(ListLine(n), text)
      {
        if n != names[0] {
          assert n in names[1..];
          var i, j :| 0 <= i <= j <= |ListLines(names[1..])| && ListLines(names[1..])[i..j] == ListLine(n);
          assert text[|head| + i..|head| + j] == ListLine(n);
        }
      }
    }
  }

  lemma ListedAfter(prefix: string, rest: string)
    ensures forall line :: Listed(line, rest) ==> Listed(line, prefix + rest)
  {
    forall line | Listed(line, rest)
      ensures Listed(line, prefix + rest)
    {
      var i, j :| 0 <= i <= j <= |rest| && rest[i..j] == line;
      assert (prefix + rest)[|prefix| + i..|prefix| + j] == line;
    }
  }

  /** The help text as written is a proper prefix of the intended one and
      stops before the collections are explained: every collection line of
      the intended text starts after its end. */
  lemma HelpStopsBeforeCollections()
    ensures |HelpMsgAsWritten()| < |HelpMsg()|
    ensures HelpMsg()[..|HelpMsgAsWritten()|] == HelpMsgAsWritten()
    ensures HelpMsg()[|HelpMsgAsWritten()|..] == CollectionText + ListLines(Names)
  {
    assert HelpMsg() == HelpMsgAsWritten() + (CollectionText + ListLines(Names));
  }

  // ---------------------------------------------------------------------
  // action

  /** What reading one pseudopotential file gives. */
  datatype SpeciesRead = Unreadable | Read(ultrasoft: bool, nlcc: bool)

  /** One element of a collection: its symbol and its file. */
  datatype Element = Element(symbol: string, path: string)

  /** A species added to the atom set, with its Ewald width when given. */
  datatype Defined = Defined(name: string, rcpsin: Option<real>)

  /** The species the first n elements of a collection define: the readable
      ones, in order. */
  function DefinedUpTo(elts: seq<Element>, read: string -> SpeciesRead, n: nat): (ds: seq<Defined>)
    requires n <= |elts|
    ensures |ds| <= n
  {
    if n == 0 then []
    else if read(elts[n - 1].path).Read? then DefinedUpTo(elts, read, n - 1) + [Defined(elts[n - 1].symbol, None)]
    else DefinedUpTo(elts, read, n - 1)
  }

  /** Some of the first n elements is readable and ultrasoft. */
  predicate AnyUltrasoft(elts: seq<Element>, read: string -> SpeciesRead, n: nat)
    requires n <= |elts|
  {
    exists k :: 0 <= k < n && read(elts[k].path).Read? && read(elts[k].path).ultrasoft
  }

  /** Some of the first n elements is readable with a core correction. */
  predicate AnyNlcc(elts: seq<Element>, read: string -> SpeciesRead, n: nat)
    requires n <= |elts|
  {
    exists k :: 0 <= k < n && read(elts[k].path).Read? && read(elts[k].path).nlcc
  }

  /** The single-file form: the species name argv[1] from the file argv[2],
      with the Ewald width argv[3] when present; nothing when unreadable. */
  function DefinedFromFile(argv: seq<string>, atof: string -> real, read: string -> SpeciesRead): (ds: seq<Defined>)
    requires |argv| == 3 || |argv| == 4
    ensures |ds| <= 1
    ensures |ds| == 1 <==> read(argv[2]).Read?
    ensures |ds| == 1 ==> ds[0].name == argv[1] && (ds[0].rcpsin.Some? <==> |argv| == 4)
  {
    if read(argv[2]).Unreadable? then []
    else if |argv| == 4 then [Defined(argv[1], Some(atof(argv[3])))]
    else [Defined(argv[1], None)]
  }

  class SpeciesCmd {
    const s: Control

    /** Clears both flags of the sample. */
    constructor (sample: Control)
      modifies sample`ultrasoft, sample`nlcc
      ensures s == sample && !s.ultrasoft && !s.nlcc
    {
      s := sample;
      new;
      s.ultrasoft := false;
      s.nlcc := false;
    }

    /** Sets the flags a read species calls for; never clears one. */
    method Note(r: SpeciesRead)
      requires r.Read?
      modifies s`ultrasoft, s`nlcc
      ensures s.ultrasoft == (old(s.ultrasoft) || r.ultrasoft)
      ensures s.nlcc == (old(s.nlcc) || r.nlcc)
    {
      if r.ultrasoft {
        s.ultrasoft := true;
      }
      if r.nlcc {
        s.nlcc := true;
      }
    }

    /** The collection loop: every readable element becomes a species named
        by its symbol; unreadable ones are skipped. */
    method DefineCollection(elts: seq<Element>, read: string -> SpeciesRead) returns (added: seq<Defined>)
      modifies s`ultrasoft, s`nlcc
      ensures added == DefinedUpTo(elts, read, |elts|)
      ensures s.ultrasoft == (old(s.ultrasoft) || AnyUltrasoft(elts, read, |elts|))
      ensures s.nlcc == (old(s.nlcc) || AnyNlcc(elts, read, |elts|))
    {
      added := [];
      var i := 0;
      while i < |elts|
        invariant 0 <= i <= |elts|
        invariant added == DefinedUpTo(elts, read, i)
        invariant s.ultrasoft == (old(s.ultrasoft) || AnyUltrasoft(elts, read, i))
        invariant s.nlcc == (old(s.nlcc) || AnyNlcc(elts, read, i))
      {
        var r := read(elts[i].path);
        if r.Read? {
          added := added + [Defined(elts[i].symbol, None)];
          Note(r);
        }
        assert AnyUltrasoft(elts, read, i + 1) == (AnyUltrasoft(elts, read, i) || (r.Read? && r.ultrasoft));
        assert AnyNlcc(elts, read, i + 1) == (AnyNlcc(elts, read, i) || (r.Read? && r.nlcc));
        i := i + 1;
      }
    }

    /**
     * `species <name> <file> [width]` or `species collection <name> [width]`:
     * 1 for a wrong argument count or an unknown collection, with nothing
     * defined and the flags unchanged; otherwise 0, even when files cannot
     * be read. A width given with a collection is ignored. The flags are
     * only ever set.
     */
    method Action(argv: seq<string>, atof: string -> real, share: string,
                  read: string -> SpeciesRead, contents: string -> seq<Element>)
        returns (status: int, added: seq<Defined>)
      modifies s`ultrasoft, s`nlcc
      ensures status == 0 || status == 1
      ensures status == 1 <==> !(|argv| == 3 || |argv| == 4)
                               || (argv[1] == "collection" && argv[2] !in Directories)
      ensures status == 1 ==> added == [] && s.ultrasoft == old(s.ultrasoft) && s.nlcc == old(s.nlcc)
      ensures old(s.ultrasoft) ==> s.ultrasoft
      ensures old(s.nlcc) ==> s.nlcc
      ensures status == 0 && argv[1] != "collection" ==> added == DefinedFromFile(argv, atof, read)
      ensures status == 0 && argv[1] != "collection" ==>
                s.ultrasoft == (old(s.ultrasoft) || (read(argv[2]).Read? && read(argv[2]).ultrasoft))
                && s.nlcc == (old(s.nlcc) || (read(argv[2]).Read? && read(argv[2]).nlcc))
      ensures status == 0 && argv[1] == "collection" ==>
                (var elts := contents(share + PseudoDir + Directories[argv[2]]);
                 added == DefinedUpTo(elts, read, |elts|)
                 && s.ultrasoft == (old(s.ultrasoft) || AnyUltrasoft(elts, read, |elts|))
                 && s.nlcc == (old(s.nlcc) || AnyNlcc(elts, read, |elts|)))
    {
      if !(|argv| == 3 || |argv| == 4) {
        return 1, [];
      }
      if argv[1] != "collection" {
        var r := read(argv[2]);
        added := [];
        if r.Read? {
          if |argv| == 4 {
            var rcpsin := atof(argv[3]);
            added := [Defined(argv[1], Some(rcpsin))];
          } else {
            added := [Defined(argv[1], None)];
          }
          Note(r);
        }
      } else {
        var found, dirname := CollectionDir(share, argv[2]);
        if !found {
          return 1, [];
        }
        added := DefineCollection(contents(dirname), read);
      }
      return 0, added;
    }
  }
}
