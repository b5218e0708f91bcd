/**
 * `ai_translate_missing_zh.py`: fill in the `zh` column of rows that a missing-translation report
 * names, by asking a translation service (here an arbitrary function that may fail or answer empty).
 */
module TranslateMissing {
  import opened Strings
  import opened Options
  import opened Rows

  // ---------------------------------------------------------------------------------------------
  // Which rows miss a translation
  // ---------------------------------------------------------------------------------------------

  /** `is_missing_translation`: the English text is not blank and the Chinese text is blank or a copy of it. */
  predicate IsMissingTranslation(en: string, zh: string)
  {
    var e := Strip(en);
    var z := Strip(zh);
    e != "" && (z == "" || z == e)
  }

  /** The same condition stated on the raw cells: some non-space English character, and ... */
  lemma MissingTranslationMeaning(en: string, zh: string)
    ensures IsMissingTranslation(en, zh) <==>
      && (exists k :: 0 <= k < |en| && !IsSpace(en[k]))
      && ((forall k :: 0 <= k < |zh| ==> IsSpace(zh[k])) || Strip(zh) == Strip(en))
  {
    StripEmptyIff(en);
    StripEmptyIff(zh);
  }

  /** Surrounding whitespace on either cell never changes the verdict. */
  lemma MissingTranslationStripInvariant(en: string, zh: string)
    ensures IsMissingTranslation(Strip(en), Strip(zh)) == IsMissingTranslation(en, zh)
  {
    StripStripped(Strip(en));
    StripStripped(Strip(zh));
  }

  // ---------------------------------------------------------------------------------------------
  // The report filter (`load_targets_from_report`)
  // ---------------------------------------------------------------------------------------------

  /** A report line as a `(file, key)` pair: the file name, the row key and whether it names a `zh` target. */
  type Target = (string, string)

  /**
   * The filter of the report loop: a report row names the `zh` text of one key of one file when its
   * stripped `file` and `key` cells are non-empty and its stripped `target_col` is empty or `zh`.
   */
  function ReportEntry(row: Row): (e: Option<Target>)
    ensures e.Some? ==> e.value.0 != "" && e.value.1 != ""
  {
    var fileName := Normalize(Get(row, "file"));
    var key := Normalize(Get(row, "key"));
    var targetCol := Normalize(Get(row, "target_col"));
    if fileName == "" || key == "" then None
    else if targetCol != "" && targetCol != "zh" then None
    else Some((fileName, key))
  }

  /**
   * A report row contributes nothing when its file or key cell is blank, or when it names a target
   * column other than `zh`; otherwise it contributes its stripped file and key.
   */
  lemma ReportFilter(row: Row)
    ensures ReportEntry(row).None? <==>
      || IsBlank(Get(row, "file")) || IsBlank(Get(row, "key"))
      || (!IsBlank(Get(row, "target_col")) && Normalize(Get(row, "target_col")) != "zh")
    ensures ReportEntry(row).Some? ==> ReportEntry(row).value == (Normalize(Get(row, "file")), Normalize(Get(row, "key")))
  {
    NormalizeBlank(Get(row, "file"));
    NormalizeBlank(Get(row, "key"));
    NormalizeBlank(Get(row, "target_col"));
  }

  /** The filter applied to every report row, in order. */
  function ReportEntries(rows: seq<Row>): (es: seq<Option<Target>>)
    ensures |es| == |rows|
  {
    if rows == [] then [] else ReportEntries(rows[..|rows| - 1]) + [ReportEntry(rows[|rows| - 1])]
  }

  /** The filtered list holds one entry per report row, at the same position. */
  lemma {:induction false} ReportEntriesAt(rows: seq<Row>, j: nat)
    requires j < |rows|
    ensures ReportEntries(rows)[j] == ReportEntry(rows[j])
  {
    if j < |rows| - 1 {
      ReportEntriesAt(rows[..|rows| - 1], j);
    }
  }

  /** One filtered report row folded into the per-file key sets (`targets.setdefault(file, set()).add(key)`). */
  function AddTarget(targets: map<string, set<string>>, e: Option<Target>): map<string, set<string>>
  {
    match e
    case None => targets
    case Some((fileName, key)) =>
      var keys := if fileName in targets then targets[fileName] else {};
      targets[fileName := keys + {key}]
  }

  /** The per-file key sets built from a list of filtered report rows. */
  function Targets(es: seq<Option<Target>>): map<string, set<string>>
  {
    if es == [] then map[] else AddTarget(Targets(es[..|es| - 1]), es[|es| - 1])
  }

  /**
   * A key is a target of a file exactly when some report row passes the filter with that file and
   * key, and every file that appears has at least one key.
   */
  lemma {:induction false} TargetsMeaning(es: seq<Option<Target>>)
    ensures forall f, k :: (f in Targets(es) && k in Targets(es)[f]) <==> Some((f, k)) in es
    ensures forall f :: f in Targets(es) ==> Targets(es)[f] != {}
  {
    if es != [] {
      var init := es[..|es| - 1];
      TargetsMeaning(init);
      assert es == init + [es[|es| - 1]];
    }
  }

  /** `load_targets_from_report`: a report that does not exist gives no targets at all. */
  method LoadTargetsFromReport(report: Option<seq<Row>>) returns (targets: map<string, set<string>>)
    ensures report.None? ==> targets == map[]
    ensures report.Some? ==> targets == Targets(ReportEntries(report.value))
  {
    targets := map[];
    if report.None? {
      return;
    }
    var rows := report.value;
    for i := 0 to |rows|
      invariant targets == Targets(ReportEntries(rows[..i]))
    {
      var row := rows[i];
      assert rows[..i + 1][..i] == rows[..i];
      ghost var es := ReportEntries(rows[..i]);
      assert ReportEntries(rows[..i + 1]) == es + [ReportEntry(row)];
      assert (es + [ReportEntry(row)])[..i] == es;
      var fileName := Normalize(Get(row, "file"));
      var key := Normalize(Get(row, "key"));
      var targetCol := Normalize(Get(row, "target_col"));
      if fileName != "" && key != "" && (targetCol == "" || targetCol == "zh") {
        var keys := if fileName in targets then targets[fileName] else {};
        targets := targets[fileName := keys + {key}];
      }
    }
    assert rows[..|rows|] == rows;
  }

  // ---------------------------------------------------------------------------------------------
  // The key index and the description context (`build_key_index`, `get_desc_context`)
  // ---------------------------------------------------------------------------------------------

  /**
   * Every indexed position lies inside a row list of length `n`. The source's index holds references to
   * the row dictionaries themselves; the model holds their positions.
   */
  predicate IndexesRows(index: map<string, nat>, n: nat)
  {
    forall k :: k in index ==> index[k] < n
  }

  /** The stripped `KEY` of every row, in order. */
  function KeysOf(rows: seq<Row>): (keys: seq<string>)
    ensures |keys| == |rows| && forall j :: 0 <= j < |rows| ==> keys[j] == KeyOf(rows[j])
  {
    seq(|rows|, j requires 0 <= j < |rows| => KeyOf(rows[j]))
  }

  /** Position `p` holds the last occurrence of `k`. */
  predicate IsLast(keys: seq<string>, k: string, p: nat)
  {
    p < |keys| && keys[p] == k && forall j :: p < j < |keys| ==> keys[j] != k
  }

  /** The index of a list of keys: each non-blank key maps to the position that set it last. */
  function KeyIndex(keys: seq<string>): (index: map<string, nat>)
    ensures IndexesRows(index, |keys|)
  {
    if keys == [] then map[]
    else
      var init := KeyIndex(keys[..|keys| - 1]);
      var key := keys[|keys| - 1];
      if key != "" then init[key := |keys| - 1] else init
  }

  /** The index holds exactly the non-blank keys, and a later row with the same key wins. */
  lemma {:induction false} KeyIndexMeaning(keys: seq<string>)
    ensures forall k :: k in KeyIndex(keys) <==> k != "" && k in keys
    ensures forall k :: k in KeyIndex(keys) ==> IsLast(keys, k, KeyIndex(keys)[k])
  {
    if keys != [] {
      var init := keys[..|keys| - 1];
      KeyIndexMeaning(init);
      assert keys == init + [keys[|keys| - 1]];
    }
  }

  /** `build_key_index` */
  method BuildKeyIndex(rows: seq<Row>) returns (index: map<string, nat>)
    ensures index == KeyIndex(KeysOf(rows))
  {
    ghost var keys := KeysOf(rows);
    index := map[];
    for i := 0 to |rows|
      invariant index == KeyIndex(keys[..i])
    {
      assert keys[..i + 1][..i] == keys[..i] && keys[..i + 1][i] == KeyOf(rows[i]);
      var key := KeyOf(rows[i]);
      if key != "" {
        index := index[key := i];
      }
    }
    assert keys[..|rows|] == keys;
  }

  /**
   * `get_desc_context`: for a `<base>_NAME` key whose `<base>_DESC` row is indexed, that row's current
   * `en` and `zh` texts; otherwise two empty strings. (An indexed row always has a non-blank `KEY`
   * cell, so the source's emptiness test of the found row never fires.)
   */
  function DescContext(rowKey: string, index: map<string, nat>, rows: seq<Row>): (r: (string, string))
    requires IndexesRows(index, |rows|)
    ensures r != ("", "") ==> EndsWith(rowKey, "_NAME") && rowKey[..|rowKey| - 5] + "_DESC" in index
  {
    if !EndsWith(rowKey, "_NAME") then ("", "")
    else
      var descKey := rowKey[..|rowKey| - 5] + "_DESC";
      if descKey !in index then ("", "")
      else
        var descRow := rows[index[descKey]];
        (Text(descRow, "en"), Text(descRow, "zh"))
  }

  /** A `<base>_NAME` key is paired with the `<base>_DESC` row, when there is one. */
  lemma DescContextOfName(base: string, index: map<string, nat>, rows: seq<Row>)
    requires IndexesRows(index, |rows|)
    ensures base + "_DESC" in index ==>
      DescContext(base + "_NAME", index, rows) == (Text(rows[index[base + "_DESC"]], "en"), Text(rows[index[base + "_DESC"]], "zh"))
    ensures base + "_DESC" !in index ==> DescContext(base + "_NAME", index, rows) == ("", "")
  {
    var name := base + "_NAME";
    assert name[|name| - 5..] == "_NAME";
    assert name[..|name| - 5] == base;
  }

  // ---------------------------------------------------------------------------------------------
  // Cleaning the service's answer (`sanitize_model_output`)
  // ---------------------------------------------------------------------------------------------

  predicate IsAsciiLetter(c: char)
  {
    ('a' <= c <= 'z') || ('A' <= c <= 'Z')
  }

  /** The length of the greedy `[a-zA-Z]*` run that starts at index `i`. */
  function LetterRun(s: string, i: nat): (r: nat)
    requires i <= |s|
    ensures i + r <= |s|
    decreases |s| - i
  {
    if i < |s| && IsAsciiLetter(s[i]) then 1 + LetterRun(s, i + 1) else 0
  }

  /** A run of `|w|` letters followed by a non-letter (or the end) is what `LetterRun` measures. */
  lemma {:induction false} LetterRunOf(s: string, i: nat, w: string)
    requires i + |w| <= |s| && s[i..i + |w|] == w
    requires forall k :: 0 <= k < |w| ==> IsAsciiLetter(w[k])
    requires i + |w| == |s| || !IsAsciiLetter(s[i + |w|])
    ensures LetterRun(s, i) == |w|
    decreases |w|
  {
    if w != [] {
      assert s[i] == w[0];
      assert s[i + 1..i + 1 + |w[1..]|] == w[1..];
      LetterRunOf(s, i + 1, w[1..]);
    }
  }

  /** The length of the `^```[a-zA-Z]*\n` match at the start of `s`, or 0 when there is none. */
  function OpenFenceLen(s: string): (r: nat)
    ensures r <= |s|
  {
    if StartsWith(s, "```") then
      var j := 3 + LetterRun(s, 3);
      if j < |s| && s[j] == '\n' then j + 1 else 0
    else 0
  }

  /** `re.sub(r"\n```$", "", s)`: `$` matches at the very end, or just before a final newline. */
  function DropCloseFence(s: string): string
  {
    if EndsWith(s, "\n```") then s[..|s| - 4]
    else if EndsWith(s, "\n```\n") then s[..|s| - 5] + "\n"
    else s
  }

  /** `sanitize_model_output`: strip, remove one opening fence line and one closing fence, strip again. */
  function SanitizeModelOutput(text: string): (r: string)
    ensures IsStripped(r)
    ensures |r| <= |text|
  {
    var s := Strip(text);
    var unopened := s[OpenFenceLen(s)..];
    Strip(DropCloseFence(unopened))
  }

  /** Text without fences only loses its surrounding whitespace. */
  lemma SanitizeUnfenced(text: string)
    requires !StartsWith(Strip(text), "```") && !EndsWith(Strip(text), "\n```")
    ensures SanitizeModelOutput(text) == Strip(text)
  {
    var s := Strip(text);
    assert s[0..] == s;
    assert s == [] || s[|s| - 1] != '\n';
    StripStripped(s);
  }

  /** A fenced block with a language tag gives back its body, stripped. */
  lemma SanitizeFenced(lang: string, body: string)
    requires forall k :: 0 <= k < |lang| ==> IsAsciiLetter(lang[k])
    ensures SanitizeModelOutput("```" + lang + "\n" + body + "\n```") == Strip(body)
  {
    var s := "```" + lang + "\n" + body + "\n```";
    assert s[0] == '`' && s[|s| - 1] == '`';
    StripStripped(s);
    assert s[..3] == "```";
    assert s[3..3 + |lang|] == lang;
    assert s[3 + |lang|] == '\n';
    LetterRunOf(s, 3, lang);
    assert OpenFenceLen(s) == 4 + |lang|;
    var unopened := s[4 + |lang|..];
    assert unopened == body + "\n```";
    assert unopened[|unopened| - 4..] == "\n```";
    assert unopened[..|unopened| - 4] == body;
  }

  // ---------------------------------------------------------------------------------------------
  // The row loop of `process_file`
  // ---------------------------------------------------------------------------------------------

  /** The prompt family: `name` for `_NAME` keys, `desc` for `_DESC` keys, `generic` otherwise. */
  datatype RowType = Name | Desc | Generic

  function RowTypeOf(key: string): RowType
  {
    if EndsWith(key, "_NAME") then Name else if EndsWith(key, "_DESC") then Desc else Generic
  }

  /** What `translate_zh_text` is given: the key, the English text, the prompt family and the description context. */
  datatype TranslateRequest = TranslateRequest(key: string, en: string, rowType: RowType, enDesc: string, zhDesc: string)

  /** What `translate_zh_text` does: it returns a text, or raises after its retries are exhausted. */
  datatype Reply = Translated(text: string) | Failed

  /** The output rows so far and the two counters `translated_rows` and `failed_rows`. */
  datatype Progress = Progress(rows: seq<Row>, translated: nat, failed: nat)

  /** Not a comment or blank row, named by the report (when the file has one), and missing its translation. */
  predicate Eligible(row: Row, targets: Option<set<string>>)
  {
    && !ShouldSkipRow(row)
    && (targets.None? || KeyOf(row) in targets.value)
    && IsMissingTranslation(Text(row, "en"), Text(row, "zh"))
  }

  /** `max_rows <= 0 or translated_rows < max_rows` */
  predicate UnderCap(maxRows: int, translated: nat)
  {
    maxRows <= 0 || translated < maxRows
  }

  /** The request for a row, with the description context read from the rows as they are now. */
  function RequestFor(row: Row, index: map<string, nat>, rows: seq<Row>): TranslateRequest
    requires IndexesRows(index, |rows|)
  {
    var key := KeyOf(row);
    var ctx := DescContext(key, index, rows);
    TranslateRequest(key, Text(row, "en"), RowTypeOf(key), ctx.0, ctx.1)
  }

  /** One iteration of the row loop, for the row at position `k`. */
  function StepRow(p: Progress, k: nat, index: map<string, nat>, targets: Option<set<string>>, maxRows: int,
                   translate: TranslateRequest -> Reply): (q: Progress)
    requires k < |p.rows| && IndexesRows(index, |p.rows|)
  {
    var row := p.rows[k];
    if Eligible(row, targets) && UnderCap(maxRows, p.translated) then
      match translate(RequestFor(row, index, p.rows))
      case Failed => p.(failed := p.failed + 1)
      case Translated(s) =>
        if s != "" then p.(rows := p.rows[k := row["zh" := Some(s)]], translated := p.translated + 1) else p
    else p
  }

  /** The state after the first `n` rows. */
  function Run(rows: seq<Row>, n: nat, index: map<string, nat>, targets: Option<set<string>>, maxRows: int,
               translate: TranslateRequest -> Reply): (p: Progress)
    requires n <= |rows| && IndexesRows(index, |rows|)
    ensures |p.rows| == |rows|
  {
    if n == 0 then Progress(rows, 0, 0)
    else StepRow(Run(rows, n - 1, index, targets, maxRows, translate), n - 1, index, targets, maxRows, translate)
  }

  /** Every row visited is either translated or failed at most once, and a positive cap is never exceeded. */
  lemma {:induction false} RunCounters(rows: seq<Row>, n: nat, index: map<string, nat>, targets: Option<set<string>>,
                                       maxRows: int, translate: TranslateRequest -> Reply)
    requires n <= |rows| && IndexesRows(index, |rows|)
    ensures Run(rows, n, index, targets, maxRows, translate).translated + Run(rows, n, index, targets, maxRows, translate).failed <= n
    ensures maxRows > 0 ==> Run(rows, n, index, targets, maxRows, translate).translated <= maxRows
  {
    if n > 0 {
      RunCounters(rows, n - 1, index, targets, maxRows, translate);
    }
  }

  /** Output row `o` is the input row `row`, or that row with a non-empty `zh` written in and nothing else changed. */
  predicate RowOutcome(row: Row, o: Row, targets: Option<set<string>>)
  {
    || o == row
    || (&& Eligible(row, targets)
        && "zh" in o && o["zh"].Some? && o["zh"].value != ""
        && o == row["zh" := o["zh"]])
  }

  /** One step touches only the row it visits, and only as `RowOutcome` allows. */
  lemma StepRowEffect(p: Progress, k: nat, index: map<string, nat>, targets: Option<set<string>>, maxRows: int,
                      translate: TranslateRequest -> Reply)
    requires k < |p.rows| && IndexesRows(index, |p.rows|)
    ensures RowOutcome(p.rows[k], StepRow(p, k, index, targets, maxRows, translate).rows[k], targets)
    ensures forall j :: 0 <= j < |p.rows| && j != k ==> StepRow(p, k, index, targets, maxRows, translate).rows[j] == p.rows[j]
    ensures !UnderCap(maxRows, p.translated) ==> StepRow(p, k, index, targets, maxRows, translate) == p
  {
    var row := p.rows[k];
    var q := StepRow(p, k, index, targets, maxRows, translate);
    if Eligible(row, targets) && UnderCap(maxRows, p.translated) {
      var reply := translate(RequestFor(row, index, p.rows));
      if reply.Translated? && reply.text != "" {
        var o := row["zh" := Some(reply.text)];
        assert q.rows == p.rows[k := o];
        assert RowOutcome(row, o, targets);
      } else {
        assert q.rows == p.rows;
      }
    } else {
      assert q == p;
    }
  }

  /** The row-by-row invariant of the loop, carried over one visited row. */
  lemma OutcomesExtend(rows: seq<Row>, before: seq<Row>, after: seq<Row>, k: nat, targets: Option<set<string>>)
    requires |before| == |rows| && |after| == |rows| && k < |rows|
    requires forall j :: 0 <= j < k ==> RowOutcome(rows[j], before[j], targets)
    requires forall j :: k <= j < |rows| ==> before[j] == rows[j]
    requires RowOutcome(before[k], after[k], targets)
    requires forall j :: 0 <= j < |rows| && j != k ==> after[j] == before[j]
    ensures forall j :: 0 <= j < k + 1 ==> RowOutcome(rows[j], after[j], targets)
    ensures forall j :: k + 1 <= j < |rows| ==> after[j] == rows[j]
  {
    forall j | 0 <= j < k + 1
      ensures RowOutcome(rows[j], after[j], targets)
    {
      if j < k {
        assert after[j] == before[j];
      } else {
        assert before[j] == rows[j];
      }
    }
  }

  /** Rows not yet visited are as read. */
  lemma {:induction false} RunUnvisited(rows: seq<Row>, n: nat, index: map<string, nat>, targets: Option<set<string>>,
                                        maxRows: int, translate: TranslateRequest -> Reply)
    requires n <= |rows| && IndexesRows(index, |rows|)
    ensures forall j :: n <= j < |rows| ==> Run(rows, n, index, targets, maxRows, translate).rows[j] == rows[j]
  {
    if n > 0 {
      RunUnvisited(rows, n - 1, index, targets, maxRows, translate);
      var p := Run(rows, n - 1, index, targets, maxRows, translate);
      StepRowEffect(p, n - 1, index, targets, maxRows, translate);
      var q := StepRow(p, n - 1, index, targets, maxRows, translate);
      assert forall j :: n <= j < |rows| ==> q.rows[j] == p.rows[j];
      assert Run(rows, n, index, targets, maxRows, translate) == q;
    }
  }

  /**
   * Only eligible rows among the first `n` change, and only in their `zh` cell, which becomes a
   * non-empty text; the rest have not yet been looked at and are as read.
   */
  lemma {:induction false} RunRows(rows: seq<Row>, n: nat, index: map<string, nat>, targets: Option<set<string>>,
                                   maxRows: int, translate: TranslateRequest -> Reply)
    requires n <= |rows| && IndexesRows(index, |rows|)
    ensures forall j :: 0 <= j < n ==> RowOutcome(rows[j], Run(rows, n, index, targets, maxRows, translate).rows[j], targets)
    ensures forall j :: n <= j < |rows| ==> Run(rows, n, index, targets, maxRows, translate).rows[j] == rows[j]
  {
    if n > 0 {
      RunRows(rows, n - 1, index, targets, maxRows, translate);
      var p := Run(rows, n - 1, index, targets, maxRows, translate);
      StepRowEffect(p, n - 1, index, targets, maxRows, translate);
      var q := StepRow(p, n - 1, index, targets, maxRows, translate);
      OutcomesExtend(rows, p.rows, q.rows, n - 1, targets);
      assert Run(rows, n, index, targets, maxRows, translate) == q;
    }
  }

  /**
   * Once a positive `max_rows` is reached, no further row is sent to the service: every later row is
   * written as read and the counters stay as they were when the cap was reached.
   */
  lemma {:induction false} RunCapped(rows: seq<Row>, j: nat, n: nat, index: map<string, nat>, targets: Option<set<string>>,
                                     maxRows: int, translate: TranslateRequest -> Reply)
    requires j <= n <= |rows| && IndexesRows(index, |rows|)
    requires !UnderCap(maxRows, Run(rows, j, index, targets, maxRows, translate).translated)
    ensures Run(rows, n, index, targets, maxRows, translate) == Run(rows, j, index, targets, maxRows, translate)
    ensures forall i :: j <= i < |rows| ==> Run(rows, n, index, targets, maxRows, translate).rows[i] == rows[i]
    decreases n
  {
    if n > j {
      RunCapped(rows, j, n - 1, index, targets, maxRows, translate);
      StepRowEffect(Run(rows, n - 1, index, targets, maxRows, translate), n - 1, index, targets, maxRows, translate);
    } else {
      RunUnvisited(rows, j, index, targets, maxRows, translate);
    }
  }

  /** Without a cap, an eligible row visited while the service always answers gets a non-empty `zh`. */
  lemma StepComplete(p: Progress, k: nat, index: map<string, nat>, targets: Option<set<string>>, maxRows: int,
                     translate: TranslateRequest -> Reply)
    requires k < |p.rows| && IndexesRows(index, |p.rows|) && maxRows <= 0
    requires Eligible(p.rows[k], targets)
    requires translate(RequestFor(p.rows[k], index, p.rows)).Translated?
    requires translate(RequestFor(p.rows[k], index, p.rows)).text != ""
    ensures Text(StepRow(p, k, index, targets, maxRows, translate).rows[k], "zh") != ""
  {
  }

  /**
   * Conversely, with no cap and a service that always answers with some text, every eligible row
   * ends up with a non-empty `zh`.
   */
  lemma {:induction false} RunComplete(rows: seq<Row>, n: nat, index: map<string, nat>, targets: Option<set<string>>,
                                       maxRows: int, translate: TranslateRequest -> Reply)
    requires n <= |rows| && IndexesRows(index, |rows|) && maxRows <= 0
    requires forall req :: translate(req).Translated? && translate(req).text != ""
    ensures forall j :: 0 <= j < n && Eligible(rows[j], targets) ==>
      Text(Run(rows, n, index, targets, maxRows, translate).rows[j], "zh") != ""
  {
    if n > 0 {
      RunComplete(rows, n - 1, index, targets, maxRows, translate);
      RunUnvisited(rows, n - 1, index, targets, maxRows, translate);
      var p := Run(rows, n - 1, index, targets, maxRows, translate);
      StepRowEffect(p, n - 1, index, targets, maxRows, translate);
      var q := StepRow(p, n - 1, index, targets, maxRows, translate);
      if Eligible(rows[n - 1], targets) {
        assert p.rows[n - 1] == rows[n - 1];
        StepComplete(p, n - 1, index, targets, maxRows, translate);
      }
      assert forall j :: 0 <= j < n - 1 ==> q.rows[j] == p.rows[j];
      assert Run(rows, n, index, targets, maxRows, translate) == q;
    }
  }

  /** The body of the row loop: the row at position `i` is visited as `StepRow` describes. */
  method VisitRow(out: seq<Row>, translated: nat, failed: nat, i: nat, index: map<string, nat>,
                  targets: Option<set<string>>, maxRows: int, translate: TranslateRequest -> Reply)
    returns (out': seq<Row>, translated': nat, failed': nat)
    requires i < |out| && IndexesRows(index, |out|)
    ensures Progress(out', translated', failed') == StepRow(Progress(out, translated, failed), i, index, targets, maxRows, translate)
  {
    out', translated', failed' := out, translated, failed;
    var row := out[i];
    if ShouldSkipRow(row) {
      return;
    }
    var key := KeyOf(row);
    var enText := Text(row, "en");
    var zhText := Text(row, "zh");
    if targets.Some? && key !in targets.value {
      return;
    }
    var needTranslate := IsMissingTranslation(enText, zhText);
    if needTranslate && (maxRows <= 0 || translated < maxRows) {
      var ctx := DescContext(key, index, out);
      var reply := translate(TranslateRequest(key, enText, RowTypeOf(key), ctx.0, ctx.1));
      match reply {
        case Failed =>
          failed' := failed + 1;
        case Translated(s) =>
          if s != "" {
            out' := out[i := row["zh" := Some(s)]];
            translated' := translated + 1;
          }
      }
    }
  }

  /**
   * `process_file` over rows already read: a file without both an `en` and a `zh` column is copied
   * unchanged; otherwise the rows are visited in order as `Run` describes.
   */
  method ProcessFile(fieldnames: seq<string>, rows: seq<Row>, targets: Option<set<string>>, maxRows: int,
                     translate: TranslateRequest -> Reply)
    returns (out: seq<Row>, translated: nat, failed: nat)
    ensures |out| == |rows|
    ensures "en" !in fieldnames || "zh" !in fieldnames ==> out == rows && translated == 0 && failed == 0
    ensures "en" in fieldnames && "zh" in fieldnames ==>
      Progress(out, translated, failed) == Run(rows, |rows|, KeyIndex(KeysOf(rows)), targets, maxRows, translate)
    ensures maxRows > 0 ==> translated <= maxRows
    ensures forall j :: 0 <= j < |rows| ==> RowOutcome(rows[j], out[j], targets)
  {
    if "en" !in fieldnames || "zh" !in fieldnames {
      return rows, 0, 0;
    }
    var index := BuildKeyIndex(rows);
    out, translated, failed := rows, 0, 0;
    for i := 0 to |rows|
      invariant Progress(out, translated, failed) == Run(rows, i, index, targets, maxRows, translate)
    {
      out, translated, failed := VisitRow(out, translated, failed, i, index, targets, maxRows, translate);
    }
    RunCounters(rows, |rows|, index, targets, maxRows, translate);
    RunRows(rows, |rows|, index, targets, maxRows, translate);
  }
}
