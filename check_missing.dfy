/**
 * `check_missing_translations.py`: report the cells of the target columns whose text is the source
 * text copied verbatim, skipping comment rows, blank rows and sources that hold only tags or symbols.
 */
module CheckMissing {
  import opened Strings
  import opened Options
  import opened Rows

  // ---------------------------------------------------------------------------------------------
  // Tag-only sources (`is_symbolic_or_tag_only_source`)
  // ---------------------------------------------------------------------------------------------

  /** `ALNUM_PATTERN`: an ASCII letter or digit, a Latin-1 or Latin Extended letter, or a CJK ideograph. */
  predicate IsAlnum(c: char)
  {
    || 'A' <= c <= 'Z' || 'a' <= c <= 'z' || '0' <= c <= '9'
    || 'À' <= c <= 'ɏ'
    || '一' <= c <= '鿿'
  }

  /** No character of the alphanumeric class is whitespace, so `strip()` never removes one. */
  lemma AlnumNotSpace(c: char)
    requires IsAlnum(c)
    ensures !IsSpace(c)
  {
  }

  /**
   * What is left of a source once tags and variables are removed (`stripTags` stands for
   * `TAG_OR_VAR_PATTERN.sub("", ...)`), then the two-character escape `\n`, then line feeds, and
   * the result is stripped.
   */
  function Residue(normalized: string, stripTags: string -> string): string
  {
    Strip(ReplaceAll(ReplaceAll(stripTags(normalized), "\\n", ""), "\n", ""))
  }

  /** `ALNUM_PATTERN.search(s)`, scanning from the left. */
  predicate HasAlnum(s: string)
  {
    s != [] && (IsAlnum(s[0]) || HasAlnum(s[1..]))
  }

  /** The search succeeds exactly when some character is alphanumeric. */
  lemma {:induction false} HasAlnumIff(s: string)
    ensures HasAlnum(s) <==> exists c :: c in s && IsAlnum(c)
  {
    if s != [] {
      HasAlnumIff(s[1..]);
      assert s == [s[0]] + s[1..];
    }
  }

  /** A non-blank source whose residue holds no alphanumeric character. */
  predicate IsSymbolicOrTagOnly(text: string, stripTags: string -> string)
  {
    var normalized := Strip(text);
    normalized != "" && !HasAlnum(Residue(normalized, stripTags))
  }

  /** A blank source is never tag-only, whatever the tag pattern removes. */
  lemma BlankNotTagOnly(text: string, stripTags: string -> string)
    requires forall k :: 0 <= k < |text| ==> IsSpace(text[k])
    ensures !IsSymbolicOrTagOnly(text, stripTags)
  {
    StripEmptyIff(text);
  }

  /**
   * The residue only ever loses characters, so a non-blank source whose tag-free text has no
   * alphanumeric character is tag-only.
   */
  lemma TagOnlyWhenNoAlnum(text: string, stripTags: string -> string)
    requires Strip(text) != ""
    requires forall c :: c in stripTags(Strip(text)) ==> !IsAlnum(c)
    ensures IsSymbolicOrTagOnly(text, stripTags)
  {
    var a := ReplaceAll(stripTags(Strip(text)), "\\n", "");
    var b := ReplaceAll(a, "\n", "");
    StripSlice(b);
    var i :| OccursAt(Strip(b), b, i);
    forall c | c in Residue(Strip(text), stripTags) ensures !IsAlnum(c) {
      var k :| 0 <= k < |Strip(b)| && Strip(b)[k] == c;
      assert b[i + k] == c;
    }
    HasAlnumIff(Residue(Strip(text), stripTags));
  }

  /**
   * The same fact stated on the source: `TAG_OR_VAR_PATTERN.sub("", ...)` only deletes characters, so a
   * non-blank source without any alphanumeric character is tag-only.
   */
  lemma NoAlnumSourceTagOnly(text: string, stripTags: string -> string)
    requires Strip(text) != ""
    requires forall s, c :: c in stripTags(s) ==> c in s
    requires forall k :: 0 <= k < |text| ==> !IsAlnum(text[k])
    ensures IsSymbolicOrTagOnly(text, stripTags)
  {
    StripSlice(text);
    var a :| OccursAt(Strip(text), text, a);
    forall c | c in stripTags(Strip(text)) ensures !IsAlnum(c) {
      assert c in Strip(text);
      var k :| 0 <= k < |Strip(text)| && Strip(text)[k] == c;
      assert text[a + k] == c;
    }
    TagOnlyWhenNoAlnum(text, stripTags);
  }

  /**
   * Conversely, an alphanumeric character that the tag pattern leaves in place survives to the
   * residue, unless it is an `n` (which may be the second half of a `\n` escape).
   */
  lemma AlnumSurvives(text: string, stripTags: string -> string, k: nat)
    requires Strip(text) != ""
    requires k < |stripTags(Strip(text))|
    requires IsAlnum(stripTags(Strip(text))[k]) && stripTags(Strip(text))[k] != 'n'
    ensures !IsSymbolicOrTagOnly(text, stripTags)
  {
    var s := stripTags(Strip(text));
    var c := s[k];
    ReplaceAllKeeps(s, "\\n", "", k);
    var a := ReplaceAll(s, "\\n", "");
    var ka :| 0 <= ka < |a| && a[ka] == c;
    ReplaceAllKeeps(a, "\n", "", ka);
    var b := ReplaceAll(a, "\n", "");
    var kb :| 0 <= kb < |b| && b[kb] == c;
    AlnumNotSpace(c);
    StripKeeps(b, kb);
    HasAlnumIff(Residue(Strip(text), stripTags));
  }

  // ---------------------------------------------------------------------------------------------
  // Collecting per-row results in file order
  // ---------------------------------------------------------------------------------------------

  /** The results of the rows in order, `f(n, row)` being those of the row on line `n` (the first data row is line 2). */
  function Collect<T>(rows: seq<Row>, f: (nat, Row) -> seq<T>): seq<T>
  {
    if rows == [] then [] else Collect(rows[..|rows| - 1], f) + f(|rows| + 1, rows[|rows| - 1])
  }

  /** Every result of `f` carries the line number it was made for. */
  ghost predicate Tagged(f: (nat, Row) -> seq<Issue>)
  {
    forall n: nat, row: Row, i :: 0 <= i < |f(n, row)| ==> f(n, row)[i].row == n
  }

  /** Each collected result comes from the row on the line it names. */
  lemma {:induction false} CollectSound(rows: seq<Row>, f: (nat, Row) -> seq<Issue>, k: nat)
    requires Tagged(f) && k < |Collect(rows, f)|
    ensures 2 <= Collect(rows, f)[k].row < |rows| + 2
    ensures Collect(rows, f)[k] in f(Collect(rows, f)[k].row, rows[Collect(rows, f)[k].row - 2])
  {
    var init := rows[..|rows| - 1];
    var before := Collect(init, f);
    var own := f(|rows| + 1, rows[|rows| - 1]);
    assert Collect(rows, f) == before + own;
    if k < |before| {
      CollectSound(init, f, k);
      assert Collect(rows, f)[k] == before[k];
      assert init[before[k].row - 2] == rows[before[k].row - 2];
    } else {
      assert Collect(rows, f)[k] == own[k - |before|];
    }
  }

  /** Every result of every row is collected. */
  lemma {:induction false} CollectComplete<T>(rows: seq<Row>, f: (nat, Row) -> seq<T>, j: nat, x: T)
    requires j < |rows| && x in f(j + 2, rows[j])
    ensures x in Collect(rows, f)
  {
    var init := rows[..|rows| - 1];
    assert Collect(rows, f) == Collect(init, f) + f(|rows| + 1, rows[|rows| - 1]);
    if j < |init| {
      assert init[j] == rows[j];
      CollectComplete(init, f, j, x);
    }
  }

  /** Collected results come in line order. */
  lemma {:induction false} CollectOrdered(rows: seq<Row>, f: (nat, Row) -> seq<Issue>, a: nat, b: nat)
    requires Tagged(f) && a <= b < |Collect(rows, f)|
    ensures Collect(rows, f)[a].row <= Collect(rows, f)[b].row
  {
    var init := rows[..|rows| - 1];
    var before := Collect(init, f);
    var own := f(|rows| + 1, rows[|rows| - 1]);
    assert Collect(rows, f) == before + own;
    if b < |before| {
      CollectOrdered(init, f, a, b);
      assert Collect(rows, f)[a] == before[a] && Collect(rows, f)[b] == before[b];
    } else {
      assert Collect(rows, f)[b] == own[b - |before|];
      if a < |before| {
        CollectSound(init, f, a);
        assert Collect(rows, f)[a] == before[a];
      } else {
        assert Collect(rows, f)[a] == own[a - |before|];
      }
    }
  }

  // ---------------------------------------------------------------------------------------------
  // Issues (`scan_file`)
  // ---------------------------------------------------------------------------------------------

  /** One line of the report. `key` is `row.get("KEY", "")`, which is `None` for a short row. */
  datatype Issue = Issue(file: string, row: nat, key: Option<string>, sourceCol: string, targetCol: string,
                         preview: string)

  /** `row.get("KEY", "")` */
  function KeyCell(row: Row): Option<string>
  {
    if "KEY" in row then row["KEY"] else Some("")
  }

  /** `(source_text or "").replace("\n", "\\n")[:120]`: one line, at most 120 characters, a prefix of the escaped text. */
  function Preview(source: string): (r: string)
    ensures |r| <= 120 && '\n' !in r
    ensures |r| <= |ReplaceAll(source, "\n", "\\n")| && r == ReplaceAll(source, "\n", "\\n")[..|r|]
    ensures |r| == 120 || r == ReplaceAll(source, "\n", "\\n")
  {
    var escaped := ReplaceAll(source, "\n", "\\n");
    ReplaceCharRemoves(source, '\n', "\\n");
    if |escaped| <= 120 then escaped else escaped[..120]
  }

  /** The report line for a row (numbered as in the file, the header being line 1) and a target column. */
  function MakeIssue(file: string, rowNumber: nat, row: Row, sourceCol: string, targetCol: string): Issue
  {
    Issue(file, rowNumber, KeyCell(row), sourceCol, targetCol, Preview(Text(row, sourceCol)))
  }

  /** `[col for col in target_cols if col in fieldnames]` */
  function ValidTargets(targetCols: seq<string>, fieldnames: seq<string>): (r: seq<string>)
    ensures forall c :: c in r <==> c in targetCols && c in fieldnames
  {
    if targetCols == [] then []
    else
      var init := ValidTargets(targetCols[..|targetCols| - 1], fieldnames);
      var last := targetCols[|targetCols| - 1];
      assert targetCols == targetCols[..|targetCols| - 1] + [last];
      if last in fieldnames then init + [last] else init
  }

  /**
   * The filter keeps the requested order: it works piece by piece on a concatenation, and a single
   * column is kept exactly when the header has it.
   */
  lemma {:induction false} ValidTargetsOrder(a: seq<string>, b: seq<string>, c: string, fieldnames: seq<string>)
    ensures ValidTargets(a + b, fieldnames) == ValidTargets(a, fieldnames) + ValidTargets(b, fieldnames)
    ensures ValidTargets([c], fieldnames) == (if c in fieldnames then [c] else [])
    decreases |b|
  {
    assert [c][..0] == [];
    if b == [] {
      assert a + b == a;
    } else {
      var b' := b[..|b| - 1];
      assert (a + b)[..|a + b| - 1] == a + b';
      assert (a + b)[|a + b| - 1] == b[|b| - 1];
      ValidTargetsOrder(a, b', c, fieldnames);
    }
  }

  /** A row whose source is examined: not skipped, non-blank and not tag-only. */
  predicate SourceChecked(row: Row, sourceCol: string, stripTags: string -> string)
  {
    var source := Normalize(Get(row, sourceCol));
    !ShouldSkipRow(row) && source != "" && !IsSymbolicOrTagOnly(source, stripTags)
  }

  /** A target cell that, once stripped, is non-empty and equal to the stripped source. */
  predicate CopiedSource(row: Row, sourceCol: string, targetCol: string)
  {
    var target := Normalize(Get(row, targetCol));
    target != "" && target == Normalize(Get(row, sourceCol))
  }

  /** The inner loop's issues for one row, over the given target columns in order. */
  function TargetIssues(file: string, rowNumber: nat, row: Row, sourceCol: string, targets: seq<string>): (r: seq<Issue>)
    ensures |r| <= |targets|
  {
    if targets == [] then []
    else
      var init := TargetIssues(file, rowNumber, row, sourceCol, targets[..|targets| - 1]);
      var last := targets[|targets| - 1];
      if CopiedSource(row, sourceCol, last) then init + [MakeIssue(file, rowNumber, row, sourceCol, last)] else init
  }

  /** The issues of one row. */
  function RowIssues(file: string, rowNumber: nat, row: Row, sourceCol: string, targets: seq<string>,
                     stripTags: string -> string): seq<Issue>
  {
    if SourceChecked(row, sourceCol, stripTags) then TargetIssues(file, rowNumber, row, sourceCol, targets) else []
  }

  /** The issues of a row as a function of its line number and its cells. */
  function RowIssuesOf(file: string, sourceCol: string, targets: seq<string>, stripTags: string -> string): (nat, Row) -> seq<Issue>
  {
    (n: nat, row: Row) => RowIssues(file, n, row, sourceCol, targets, stripTags)
  }

  /** The issues of a sequence of data rows, the first of which is line 2 of the file. */
  function Issues(file: string, rows: seq<Row>, sourceCol: string, targets: seq<string>,
                  stripTags: string -> string): seq<Issue>
  {
    Collect(rows, RowIssuesOf(file, sourceCol, targets, stripTags))
  }

  /** `scan_file` on a file with header `fieldnames` and data rows `rows`. */
  function Scan(file: string, fieldnames: seq<string>, rows: seq<Row>, sourceCol: string, targetCols: seq<string>,
                stripTags: string -> string): seq<Issue>
  {
    if sourceCol !in fieldnames then []
    else
      var targets := ValidTargets(targetCols, fieldnames);
      if targets == [] then [] else Issues(file, rows, sourceCol, targets, stripTags)
  }

  /** Every issue of a row names one of the targets, copied from the source, with the row's number. */
  lemma {:induction false} TargetIssuesSound(file: string, rowNumber: nat, row: Row, sourceCol: string,
                                             targets: seq<string>, k: nat)
    requires k < |TargetIssues(file, rowNumber, row, sourceCol, targets)|
    ensures var iss := TargetIssues(file, rowNumber, row, sourceCol, targets)[k];
      && iss.targetCol in targets && CopiedSource(row, sourceCol, iss.targetCol)
      && iss == MakeIssue(file, rowNumber, row, sourceCol, iss.targetCol)
  {
    var init := targets[..|targets| - 1];
    var rest := TargetIssues(file, rowNumber, row, sourceCol, init);
    if k < |rest| {
      TargetIssuesSound(file, rowNumber, row, sourceCol, init, k);
      assert TargetIssues(file, rowNumber, row, sourceCol, targets)[k] == rest[k];
    }
  }

  /** Every target column that holds a copy of the source gives an issue. */
  lemma {:induction false} TargetIssuesComplete(file: string, rowNumber: nat, row: Row, sourceCol: string,
                                                targets: seq<string>, targetCol: string)
    requires targetCol in targets && CopiedSource(row, sourceCol, targetCol)
    ensures MakeIssue(file, rowNumber, row, sourceCol, targetCol) in TargetIssues(file, rowNumber, row, sourceCol, targets)
  {
    var init := targets[..|targets| - 1];
    if targetCol != targets[|targets| - 1] {
      assert targets == init + [targets[|targets| - 1]];
      TargetIssuesComplete(file, rowNumber, row, sourceCol, init, targetCol);
    }
  }

  /** The issues of a row all carry its line number. */
  lemma RowIssuesTagged(file: string, sourceCol: string, targets: seq<string>, stripTags: string -> string)
    ensures Tagged(RowIssuesOf(file, sourceCol, targets, stripTags))
  {
    var f := RowIssuesOf(file, sourceCol, targets, stripTags);
    forall n: nat, row: Row, i | 0 <= i < |f(n, row)| ensures f(n, row)[i].row == n {
      TargetIssuesSound(file, n, row, sourceCol, targets, i);
    }
  }

  /** An issue of one row: the row's source is examined and the issue's target column copies it. */
  lemma RowIssueSound(file: string, rowNumber: nat, row: Row, sourceCol: string, targets: seq<string>,
                      stripTags: string -> string, iss: Issue)
    requires iss in RowIssues(file, rowNumber, row, sourceCol, targets, stripTags)
    ensures SourceChecked(row, sourceCol, stripTags)
    ensures iss.targetCol in targets && CopiedSource(row, sourceCol, iss.targetCol)
    ensures iss == MakeIssue(file, rowNumber, row, sourceCol, iss.targetCol)
  {
    var own := TargetIssues(file, rowNumber, row, sourceCol, targets);
    var i :| 0 <= i < |own| && own[i] == iss;
    TargetIssuesSound(file, rowNumber, row, sourceCol, targets, i);
  }

  /** A row whose source is examined gives an issue for each valid target column copying it. */
  lemma RowIssueComplete(file: string, rowNumber: nat, row: Row, sourceCol: string, targets: seq<string>,
                         stripTags: string -> string, targetCol: string)
    requires SourceChecked(row, sourceCol, stripTags)
    requires targetCol in targets && CopiedSource(row, sourceCol, targetCol)
    ensures MakeIssue(file, rowNumber, row, sourceCol, targetCol) in RowIssues(file, rowNumber, row, sourceCol, targets, stripTags)
  {
    TargetIssuesComplete(file, rowNumber, row, sourceCol, targets, targetCol);
  }

  /** Every issue is one of the issues of the data row on the line it names. */
  lemma IssueOfRow(file: string, rows: seq<Row>, sourceCol: string, targets: seq<string>,
                   stripTags: string -> string, k: nat)
    requires k < |Issues(file, rows, sourceCol, targets, stripTags)|
    ensures var iss := Issues(file, rows, sourceCol, targets, stripTags)[k];
      && 2 <= iss.row < |rows| + 2
      && iss in RowIssues(file, iss.row, rows[iss.row - 2], sourceCol, targets, stripTags)
  {
    RowIssuesTagged(file, sourceCol, targets, stripTags);
    CollectSound(rows, RowIssuesOf(file, sourceCol, targets, stripTags), k);
  }

  /** Every issue of a data row is in the report. */
  lemma IssueFromRow(file: string, rows: seq<Row>, sourceCol: string, targets: seq<string>,
                     stripTags: string -> string, j: nat, iss: Issue)
    requires j < |rows| && iss in RowIssues(file, j + 2, rows[j], sourceCol, targets, stripTags)
    ensures iss in Issues(file, rows, sourceCol, targets, stripTags)
  {
    CollectComplete(rows, RowIssuesOf(file, sourceCol, targets, stripTags), j, iss);
  }

  /** Issues come in file order: row numbers never decrease along the report. */
  lemma IssuesOrdered(file: string, rows: seq<Row>, sourceCol: string, targets: seq<string>,
                      stripTags: string -> string, a: nat, b: nat)
    requires a <= b
    ensures b < |Issues(file, rows, sourceCol, targets, stripTags)| ==>
      Issues(file, rows, sourceCol, targets, stripTags)[a].row <= Issues(file, rows, sourceCol, targets, stripTags)[b].row
  {
    if b < |Issues(file, rows, sourceCol, targets, stripTags)| {
      RowIssuesTagged(file, sourceCol, targets, stripTags);
      CollectOrdered(rows, RowIssuesOf(file, sourceCol, targets, stripTags), a, b);
    }
  }

  /** Without the source column, or without any requested target column, the file yields no issue. */
  lemma ScanNeedsColumns(file: string, fieldnames: seq<string>, rows: seq<Row>, sourceCol: string,
                         targetCols: seq<string>, stripTags: string -> string)
    requires sourceCol !in fieldnames || forall c :: c in targetCols ==> c !in fieldnames
    ensures Scan(file, fieldnames, rows, sourceCol, targetCols, stripTags) == []
  {
    var targets := ValidTargets(targetCols, fieldnames);
    if targets != [] {
      assert targets[0] in targets;
    }
  }

  /** The inner loop over the valid target columns of one examined row. */
  method ScanTargets(file: string, rowNumber: nat, row: Row, sourceCol: string, targets: seq<string>,
                     sourceNorm: string, issues: seq<Issue>)
    returns (r: seq<Issue>)
    requires sourceNorm == Normalize(Get(row, sourceCol))
    ensures r == issues + TargetIssues(file, rowNumber, row, sourceCol, targets)
  {
    r := issues;
    for m := 0 to |targets|
      invariant r == issues + TargetIssues(file, rowNumber, row, sourceCol, targets[..m])
    {
      assert targets[..m + 1][..m] == targets[..m];
      var targetCol := targets[m];
      var targetNorm := Normalize(Get(row, targetCol));
      if targetNorm != "" && targetNorm == sourceNorm {
        r := r + [Issue(file, rowNumber, KeyCell(row), sourceCol, targetCol, Preview(Text(row, sourceCol)))];
      }
    }
    assert targets[..|targets|] == targets;
  }

  /** `scan_file` over a header and rows already read. */
  method ScanFile(file: string, fieldnames: seq<string>, rows: seq<Row>, sourceCol: string, targetCols: seq<string>,
                  stripTags: string -> string)
    returns (issues: seq<Issue>)
    ensures issues == Scan(file, fieldnames, rows, sourceCol, targetCols, stripTags)
  {
    issues := [];
    if sourceCol !in fieldnames {
      return;
    }
    var validTargets := ValidTargets(targetCols, fieldnames);
    if validTargets == [] {
      return;
    }
    ghost var f := RowIssuesOf(file, sourceCol, validTargets, stripTags);
    for j := 0 to |rows|
      invariant issues == Collect(rows[..j], f)
    {
      assert rows[..j + 1][..j] == rows[..j];
      assert Collect(rows[..j + 1], f) == Collect(rows[..j], f) + f(j + 2, rows[j]);
      var row := rows[j];
      var rowNumber := j + 2;
      if ShouldSkipRow(row) {
        continue;
      }
      var sourceNorm := Normalize(Get(row, sourceCol));
      if sourceNorm == "" {
        continue;
      }
      if IsSymbolicOrTagOnly(sourceNorm, stripTags) {
        continue;
      }
      issues := ScanTargets(file, rowNumber, row, sourceCol, validTargets, sourceNorm, issues);
    }
    assert rows[..|rows|] == rows;
  }
}
