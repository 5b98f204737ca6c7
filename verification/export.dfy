/**
 * The export: every raw name is turned into a derived name (extension
 * stripped, prefix prepended, pattern matches removed) and the derived
 * names become the single-column `filename` records handed to the CSV
 * serialiser.
 */
module Export {
  import opened Base
  import opened FileNames
  import opened Session
  import opened Arrays

  /** Why an export aborts: the removal pattern is not a valid regular expression. */
  datatype ExportError = InvalidPattern(pattern: string)

  /**
   * The regular-expression engine, seen from outside: given a pattern's
   * source it yields None when the pattern does not compile, and otherwise
   * the function that removes every match of it from a string.
   */
  type Compiler = string -> Option<string -> string>

  /** One CSV record: the single `filename` column. */
  datatype Row = Row(filename: string)

  /**
   * The derived name of one raw name. The prefix is added after stripping,
   * so a '.' inside it is never cut; the removal runs last, on prefix plus
   * stem, and only for a non-empty pattern, which then must compile.
   */
  function Derive(name: string, prefix: string, pattern: string, compile: Compiler): (r: Result<string, ExportError>)
    ensures r.Failure? <==> pattern != "" && compile(pattern).None?
    ensures r.Failure? ==> r.error == InvalidPattern(pattern)
    ensures pattern == "" ==> r == Success(prefix + StripExtension(name))
    ensures pattern != "" && r.Success? ==> r.value == compile(pattern).value(prefix + StripExtension(name))
  {
    var stem := StripExtension(name);
    var named := if prefix != "" then prefix + stem else stem;
    assert named == prefix + stem by {
      if prefix == "" {
        assert prefix + stem == stem;
      }
    }
    if pattern != "" then
      match compile(pattern)
      case None => Failure(InvalidPattern(pattern))
      case Some(removeAll) => Success(removeAll(named))
    else Success(named)
  }

  /**
   * With no pattern the derived name starts with the prefix verbatim, dots
   * and all, and ends with the stripped name: its length is the sum of both.
   */
  lemma DerivePrefixVerbatim(name: string, prefix: string, compile: Compiler)
    ensures Derive(name, prefix, "", compile).Success?
    ensures prefix <= Derive(name, prefix, "", compile).value
    ensures Derive(name, prefix, "", compile).value[|prefix|..] == StripExtension(name)
    ensures |Derive(name, prefix, "", compile).value| == |prefix| + |StripExtension(name)|
  {
    var v := Derive(name, prefix, "", compile).value;
    assert v == prefix + StripExtension(name);
    assert v[..|prefix|] == prefix;
  }

  /**
   * The order of the steps matters: for a name without '.' and a prefix
   * with one, the derived name keeps the whole name, whereas stripping after
   * prefixing would have cut into the prefix.
   */
  lemma DeriveStripsBeforePrefixing(name: string, prefix: string, compile: Compiler)
    requires '.' !in name && '.' in prefix
    ensures Derive(name, prefix, "", compile) == Success(prefix + name)
    ensures StripExtension(prefix + name) != prefix + name
  {
    assert '.' in prefix + name by {
      var i :| 0 <= i < |prefix| && prefix[i] == '.';
      assert (prefix + name)[i] == '.';
    }
  }

  /** An empty prefix and an empty pattern leave only the stripping. */
  lemma DeriveEmptySettings(name: string, compile: Compiler)
    ensures Derive(name, "", "", compile) == Success(StripExtension(name))
  {
    assert "" + StripExtension(name) == StripExtension(name);
  }

  /** The prefix "IMG_" and the raw name "001.jpg" give "IMG_001", with no separator. */
  lemma DerivePrefixExample(compile: Compiler)
    ensures Derive("001.jpg", "IMG_", "", compile) == Success("IMG_001")
  {
    StripExtensionOfSplit("001", ".jpg");
    assert "001" + ".jpg" == "001.jpg";
    assert "IMG_" + "001" == "IMG_001";
  }

  /**
   * The derived names of a list, computed first to last; an invalid pattern
   * aborts the whole list, so no partial output exists.
   */
  function DeriveAll(files: seq<string>, prefix: string, pattern: string, compile: Compiler): (r: Result<seq<string>, ExportError>)
    ensures r.Failure? <==> |files| > 0 && pattern != "" && compile(pattern).None?
    ensures r.Failure? ==> r.error == InvalidPattern(pattern)
    ensures r.Success? ==>
              |r.value| == |files|
              && forall i :: 0 <= i < |files| ==> Derive(files[i], prefix, pattern, compile) == Success(r.value[i])
  {
    var r := MapOrAbort(files, name => Derive(name, prefix, pattern, compile));
    assert |files| > 0 && r.Success? ==> Derive(files[0], prefix, pattern, compile).Success?;
    r
  }

  /** The records handed to the serialiser: one `filename` per derived name, in order. */
  function Rows(names: seq<string>): (rows: seq<Row>)
    ensures |rows| == |names|
    ensures forall i :: 0 <= i < |names| ==> rows[i].filename == names[i]
  {
    seq(|names|, i requires 0 <= i < |names| => Row(names[i]))
  }

  /**
   * Exporting a session: one record per file, in list order, each holding
   * that file's derived name; or an abort when the pattern does not compile
   * and there is at least one file to derive. The session itself is a value
   * and is not changed.
   */
  function ExportRows(s: Session, compile: Compiler): (r: Result<seq<Row>, ExportError>)
    ensures r.Failure? <==> |s.files| > 0 && s.removePattern != "" && compile(s.removePattern).None?
    ensures r.Failure? ==> r.error == InvalidPattern(s.removePattern)
    ensures r.Success? ==>
              |r.value| == |s.files|
              && forall i :: 0 <= i < |s.files| ==>
                   Derive(s.files[i], s.prefix, s.removePattern, compile) == Success(r.value[i].filename)
  {
    match DeriveAll(s.files, s.prefix, s.removePattern, compile)
    case Failure(e) => Failure(e)
    case Success(names) => Success(Rows(names))
  }

  /** Building records commutes with deleting a position. */
  lemma RowsAfterRemove(names: seq<string>, index: int)
    ensures Rows(RemoveAt(names, index)) == RemoveAt(Rows(names), index)
  {
    if 0 <= index < |names| {
      RemoveAtShifts(names, index);
      RemoveAtShifts(Rows(names), index);
    }
  }

  /**
   * Deleting an entry and then exporting gives the records of the full
   * export with that one record deleted: removal never disturbs the other
   * names' records or their order.
   */
  lemma ExportAfterRemove(s: Session, index: int, compile: Compiler)
    requires ExportRows(s, compile).Success?
    ensures ExportRows(RemoveFile(s, index), compile) == Success(RemoveAt(ExportRows(s, compile).value, index))
  {
    MapOrAbortRemoveAt(s.files, index, name => Derive(name, s.prefix, s.removePattern, compile));
    RowsAfterRemove(DeriveAll(s.files, s.prefix, s.removePattern, compile).value, index);
  }

  /** With an empty prefix and an empty pattern, exporting only strips extensions, name by name. */
  lemma ExportNoSettings(s: Session, compile: Compiler)
    requires s.prefix == "" && s.removePattern == ""
    ensures ExportRows(s, compile).Success?
    ensures forall i :: 0 <= i < |s.files| ==> ExportRows(s, compile).value[i] == Row(StripExtension(s.files[i]))
  {
    var rows := ExportRows(s, compile).value;
    forall i | 0 <= i < |s.files| ensures rows[i] == Row(StripExtension(s.files[i])) {
      DeriveEmptySettings(s.files[i], compile);
      assert Derive(s.files[i], "", "", compile) == Success(rows[i].filename);
    }
  }

  /**
   * The list "a.txt", "b.txt", ".hidden" with no prefix and no pattern
   * exports three records: "a", "b", and the empty name, since dotfiles
   * are neither filtered out on upload nor spared by stripping.
   */
  lemma ExportDotfileScenario(s: Session, compile: Compiler)
    requires s.prefix == "" && s.removePattern == ""
    requires |s.files| == 3 && s.files[0] == "a.txt" && s.files[1] == "b.txt" && s.files[2] == ".hidden"
    ensures ExportRows(s, compile) == Success([Row("a"), Row("b"), Row("")])
  {
    ScenarioStems(s.files[0], s.files[1], s.files[2]);
    ExportNoSettings(s, compile);
    var rows := ExportRows(s, compile).value;
    assert rows == [rows[0], rows[1], rows[2]];
  }

  /** The stems of the three scenario names: "a", "b", and the empty name for the dotfile. */
  lemma ScenarioStems(a: string, b: string, h: string)
    requires a == "a.txt" && b == "b.txt" && h == ".hidden"
    ensures StripExtension(a) == "a" && StripExtension(b) == "b" && StripExtension(h) == ""
  {
    assert StripExtension(a) == "a" by {
      assert a == "a" + a[1..] && a[1..] == ".txt";
      StripExtensionOfSplit("a", a[1..]);
    }
    assert StripExtension(b) == "b" by {
      assert b == "b" + b[1..] && b[1..] == ".txt";
      StripExtensionOfSplit("b", b[1..]);
    }
    StripExtensionDotfile(h);
  }

  /**
   * With no files the export never compiles the pattern, so even an
   * invalid pattern yields an empty record list instead of an abort.
   */
  lemma ExportEmptyListNeverCompiles(s: Session, compile: Compiler)
    requires s.files == []
    ensures ExportRows(s, compile) == Success([])
  {
  }

  /**
   * The page opens with no files, so exporting straight away yields no
   * records, whatever the pattern engine does.
   */
  lemma InitialExportsNothing(compile: Compiler)
    ensures Initial.files == [] && Initial.prefix == "" && Initial.removePattern == ""
    ensures ExportRows(Initial, compile) == Success([])
  {
  }
}
