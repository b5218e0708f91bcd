/**
 * `ai_fix_term_alignment.py`: when the English text of a row names a game term, make sure its `zh`
 * text uses the agreed Chinese rendering, asking a rewriting service (here an arbitrary function
 * that may fail) to repair rows that miss one.
 */
module TermAlignment {
  import opened Strings
  import opened Options
  import opened Seqs
  import opened Rows
  import opened Terms

  // ---------------------------------------------------------------------------------------------
  // Required terms (`required_zh_terms_from_en`)
  // ---------------------------------------------------------------------------------------------

  /**
   * The Chinese renderings of the terms of `terms` whose pattern is found in `en`, in the order of
   * `terms`; `search(t, en)` stands for `TERM_PATTERNS[t].search(en_text)`.
   */
  function Required(terms: seq<Term>, en: string, search: (Term, string) -> bool): (r: seq<string>)
    ensures |r| <= |terms|
  {
    if terms == [] then []
    else
      var init := Required(terms[..|terms| - 1], en, search);
      var last := terms[|terms| - 1];
      if search(last, en) then init + [ZhTerm(last)] else init
  }

  /** A rendering is required exactly when some listed term with that rendering is found. */
  lemma {:induction false} RequiredMember(terms: seq<Term>, en: string, search: (Term, string) -> bool, z: string)
    ensures z in Required(terms, en, search) <==> exists t :: t in terms && search(t, en) && ZhTerm(t) == z
  {
    if terms != [] {
      var init := terms[..|terms| - 1];
      var last := terms[|terms| - 1];
      RequiredMember(init, en, search, z);
      assert terms == init + [last];
      if exists t :: t in terms && search(t, en) && ZhTerm(t) == z {
        var t :| t in terms && search(t, en) && ZhTerm(t) == z;
        if t != last {
          assert t in init;
        }
      }
    }
  }

  /** Distinct terms give distinct renderings, so the required list of a duplicate-free order has no duplicates. */
  lemma {:induction false} RequiredDistinct(terms: seq<Term>, en: string, search: (Term, string) -> bool)
    requires NoDuplicates(terms)
    ensures NoDuplicates(Required(terms, en, search))
  {
    if terms != [] {
      var init := terms[..|terms| - 1];
      var last := terms[|terms| - 1];
      DistinctInit(terms);
      RequiredDistinct(init, en, search);
      if search(last, en) {
        RequiredMember(init, en, search, ZhTerm(last));
        forall t | t in init ensures ZhTerm(t) != ZhTerm(last) {
          ZhTermInjective(t, last);
        }
        DistinctAppend(Required(init, en, search), ZhTerm(last));
      }
    }
  }

  /**
   * `required_zh_terms_from_en`: collect the renderings of the matching terms in `TERM_PATTERNS`
   * order, then drop repeats keeping first occurrences. The result is exactly the renderings of the
   * matching terms, each once, in that order.
   */
  method RequiredZhTerms(en: string, search: (Term, string) -> bool) returns (out: seq<string>)
    ensures out == Required(TermOrder, en, search)
  {
    var required: seq<string> := [];
    for i := 0 to |TermOrder|
      invariant required == Required(TermOrder[..i], en, search)
    {
      assert TermOrder[..i + 1][..i] == TermOrder[..i];
      var term := TermOrder[i];
      if search(term, en) {
        required := required + [ZhTerm(term)];
      }
    }
    assert TermOrder[..|TermOrder|] == TermOrder;
    out := DedupList(required);
    RequiredDistinct(TermOrder, en, search);
    DedupDistinct(required, {});
  }

  /**
   * What `required_zh_terms` returns: each rendering of a term found in the English text, once, and
   * nothing else.
   */
  lemma RequiredTerms(en: string, search: (Term, string) -> bool)
    ensures NoDuplicates(Required(TermOrder, en, search))
    ensures forall z :: z in Required(TermOrder, en, search) <==> exists t :: search(t, en) && ZhTerm(t) == z
  {
    TermOrderComplete();
    RequiredDistinct(TermOrder, en, search);
    forall z ensures z in Required(TermOrder, en, search) <==> exists t :: search(t, en) && ZhTerm(t) == z {
      RequiredMember(TermOrder, en, search, z);
    }
  }

  // ---------------------------------------------------------------------------------------------
  // Missing terms (`zh_missing_required_terms`)
  // ---------------------------------------------------------------------------------------------

  /** The required renderings that do not occur in `zh`, in the order given. */
  function Missing(zh: string, required: seq<string>): (r: seq<string>)
    ensures |r| <= |required|
  {
    if required == [] then []
    else
      var init := Missing(zh, required[..|required| - 1]);
      var last := required[|required| - 1];
      if !IsSubstring(last, zh) then init + [last] else init
  }

  /** A rendering is missing exactly when it is required and not a substring of `zh`. */
  lemma {:induction false} MissingMember(zh: string, required: seq<string>, z: string)
    ensures z in Missing(zh, required) <==> z in required && !IsSubstring(z, zh)
  {
    if required != [] {
      var init := required[..|required| - 1];
      MissingMember(zh, init, z);
      assert required == init + [required[|required| - 1]];
    }
  }

  /** Nothing is missing exactly when every required rendering occurs in `zh`. */
  lemma MissingEmptyIff(zh: string, required: seq<string>)
    ensures Missing(zh, required) == [] <==> forall z :: z in required ==> IsSubstring(z, zh)
  {
    forall z ensures z in Missing(zh, required) <==> z in required && !IsSubstring(z, zh) {
      MissingMember(zh, required, z);
    }
    if Missing(zh, required) != [] {
      assert Missing(zh, required)[0] in Missing(zh, required);
    }
  }

  /** Filtering keeps a list free of duplicates. */
  lemma {:induction false} MissingDistinct(zh: string, required: seq<string>)
    requires NoDuplicates(required)
    ensures NoDuplicates(Missing(zh, required))
  {
    if required != [] {
      var init := required[..|required| - 1];
      var last := required[|required| - 1];
      DistinctInit(required);
      MissingDistinct(zh, init);
      MissingMember(zh, init, last);
      if !IsSubstring(last, zh) {
        DistinctAppend(Missing(zh, init), last);
      }
    }
  }

  /** `zh_missing_required_terms`: the loop that collects the required renderings absent from `zh`. */
  method MissingTerms(zh: string, required: seq<string>) returns (missing: seq<string>)
    ensures missing == Missing(zh, required)
  {
    missing := [];
    for i := 0 to |required|
      invariant missing == Missing(zh, required[..i])
    {
      assert required[..i + 1][..i] == required[..i];
      var term := required[i];
      if !IsSubstring(term, zh) {
        missing := missing + [term];
      }
    }
    assert required[..|required|] == required;
  }

  // ---------------------------------------------------------------------------------------------
  // Term coverage (`term_counter`)
  // ---------------------------------------------------------------------------------------------

  /** The counter after adding one for each missing rendering that the fixed text now contains. */
  function CountPresent(counter: map<string, nat>, missing: seq<string>, fixed: string): map<string, nat>
  {
    if missing == [] then counter
    else
      var before := CountPresent(counter, missing[..|missing| - 1], fixed);
      var last := missing[|missing| - 1];
      if IsSubstring(last, fixed) then AddCount(before, last, 1) else before
  }

  /**
   * A rendering's count grows by one exactly when it was missing and the fixed text contains it;
   * every other count stays as it was.
   */
  lemma {:induction false} CountPresentEffect(counter: map<string, nat>, missing: seq<string>, fixed: string, z: string)
    requires NoDuplicates(missing)
    ensures Count(CountPresent(counter, missing, fixed), z) ==
      Count(counter, z) + (if z in missing && IsSubstring(z, fixed) then 1 else 0)
  {
    if missing != [] {
      var init := missing[..|missing| - 1];
      var last := missing[|missing| - 1];
      DistinctInit(missing);
      CountPresentEffect(counter, init, fixed, z);
      assert missing == init + [last];
    }
  }

  /** The counting loop over the missing renderings. */
  method CountFixedTerms(counter: map<string, nat>, missing: seq<string>, fixed: string) returns (r: map<string, nat>)
    ensures r == CountPresent(counter, missing, fixed)
  {
    r := counter;
    for i := 0 to |missing|
      invariant r == CountPresent(counter, missing[..i], fixed)
    {
      assert missing[..i + 1][..i] == missing[..i];
      var term := missing[i];
      if IsSubstring(term, fixed) {
        r := AddCount(r, term, 1);
      }
    }
    assert missing[..|missing|] == missing;
  }

  // ---------------------------------------------------------------------------------------------
  // The row loop of `process_file`
  // ---------------------------------------------------------------------------------------------

  /** What `ai_rewrite_zh_for_terms` is given. */
  datatype RewriteRequest = RewriteRequest(key: string, en: string, zh: string, required: seq<string>)

  /** What `ai_rewrite_zh_for_terms` does: it returns a text, or raises after its retries are exhausted. */
  datatype Reply = Rewritten(text: string) | Failed

  /** The rows so far, `rows_fixed`, `rows_failed` and `term_counter`. */
  datatype Progress = Progress(rows: seq<Row>, fixed: nat, failed: nat, counter: map<string, nat>)

  /**
   * A row the service is asked about: not skipped, with both columns, some term required by its `en`
   * text and some of those renderings absent from its `zh` text.
   */
  predicate NeedsFix(row: Row, search: (Term, string) -> bool)
  {
    && !ShouldSkipRow(row)
    && "en" in row && "zh" in row
    && Required(TermOrder, Text(row, "en"), search) != []
    && Missing(Text(row, "zh"), Required(TermOrder, Text(row, "en"), search)) != []
  }

  /** `max_rows > 0 and rows_fixed >= max_rows` */
  predicate CapReached(maxRows: int, fixed: nat)
  {
    maxRows > 0 && fixed >= maxRows
  }

  /** One iteration of the row loop, for the row at position `k`. */
  function StepRow(p: Progress, k: nat, maxRows: int, search: (Term, string) -> bool,
                   rewrite: RewriteRequest -> Reply): Progress
    requires k < |p.rows|
  {
    var row := p.rows[k];
    if NeedsFix(row, search) && !CapReached(maxRows, p.fixed) then
      var en := Text(row, "en");
      var zh := Text(row, "zh");
      var required := Required(TermOrder, en, search);
      match rewrite(RewriteRequest(KeyOf(row), en, zh, required))
      case Failed => p.(failed := p.failed + 1)
      case Rewritten(s) =>
        if s != "" && s != zh then
          p.(rows := p.rows[k := row["zh" := Some(s)]], fixed := p.fixed + 1,
             counter := CountPresent(p.counter, Missing(zh, required), s))
        else p
    else p
  }

  /** The state after the first `n` rows. */
  function Run(rows: seq<Row>, n: nat, maxRows: int, search: (Term, string) -> bool,
               rewrite: RewriteRequest -> Reply): (p: Progress)
    requires n <= |rows|
    ensures |p.rows| == |rows|
  {
    if n == 0 then Progress(rows, 0, 0, map[])
    else StepRow(Run(rows, n - 1, maxRows, search, rewrite), n - 1, maxRows, search, rewrite)
  }

  /**
   * Each visited row is fixed or failed at most once, a positive cap bounds `rows_fixed`, and no
   * term is counted more often than there are fixed rows.
   */
  lemma {:induction false} RunCounters(rows: seq<Row>, n: nat, maxRows: int, search: (Term, string) -> bool,
                                       rewrite: RewriteRequest -> Reply, z: string)
    requires n <= |rows|
    ensures Run(rows, n, maxRows, search, rewrite).fixed + Run(rows, n, maxRows, search, rewrite).failed <= n
    ensures maxRows > 0 ==> Run(rows, n, maxRows, search, rewrite).fixed <= maxRows
    ensures Count(Run(rows, n, maxRows, search, rewrite).counter, z) <= Run(rows, n, maxRows, search, rewrite).fixed
  {
    if n > 0 {
      RunCounters(rows, n - 1, maxRows, search, rewrite, z);
      var p := Run(rows, n - 1, maxRows, search, rewrite);
      var q := StepRow(p, n - 1, maxRows, search, rewrite);
      StepCounters(p, n - 1, maxRows, search, rewrite, z);
      assert Count(q.counter, z) <= q.fixed;
      assert Run(rows, n, maxRows, search, rewrite) == q;
    }
  }

  /** One row adds at most one to the counts, keeps the cap, and counts a term only in a fixed row. */
  lemma StepCounters(p: Progress, k: nat, maxRows: int, search: (Term, string) -> bool,
                     rewrite: RewriteRequest -> Reply, z: string)
    requires k < |p.rows|
    requires maxRows > 0 ==> p.fixed <= maxRows
    requires Count(p.counter, z) <= p.fixed
    ensures StepRow(p, k, maxRows, search, rewrite).fixed + StepRow(p, k, maxRows, search, rewrite).failed
      <= p.fixed + p.failed + 1
    ensures maxRows > 0 ==> StepRow(p, k, maxRows, search, rewrite).fixed <= maxRows
    ensures Count(StepRow(p, k, maxRows, search, rewrite).counter, z) <= StepRow(p, k, maxRows, search, rewrite).fixed
  {
    var row := p.rows[k];
    if NeedsFix(row, search) && !CapReached(maxRows, p.fixed) {
      var required := Required(TermOrder, Text(row, "en"), search);
      TermOrderComplete();
      RequiredDistinct(TermOrder, Text(row, "en"), search);
      MissingDistinct(Text(row, "zh"), required);
      forall s | true
        ensures Count(CountPresent(p.counter, Missing(Text(row, "zh"), required), s), z) <= p.fixed + 1
      {
        CountPresentEffect(p.counter, Missing(Text(row, "zh"), required), s, z);
      }
    }
  }

  /** Output row `o` is the input row, or that row with its `zh` replaced by a non-empty, different text. */
  predicate RowOutcome(row: Row, o: Row, search: (Term, string) -> bool)
  {
    || o == row
    || (&& NeedsFix(row, search)
        && "zh" in o && o["zh"].Some? && o["zh"].value != "" && o["zh"].value != Text(row, "zh")
        && o == row["zh" := o["zh"]])
  }

  /** One step touches only the row it visits, and only as `RowOutcome` allows. */
  lemma StepRowEffect(p: Progress, k: nat, maxRows: int, search: (Term, string) -> bool, rewrite: RewriteRequest -> Reply)
    requires k < |p.rows|
    ensures RowOutcome(p.rows[k], StepRow(p, k, maxRows, search, rewrite).rows[k], search)
    ensures forall j :: 0 <= j < |p.rows| && j != k ==> StepRow(p, k, maxRows, search, rewrite).rows[j] == p.rows[j]
    ensures CapReached(maxRows, p.fixed) ==> StepRow(p, k, maxRows, search, rewrite) == p
  {
    var row := p.rows[k];
    var q := StepRow(p, k, maxRows, search, rewrite);
    if NeedsFix(row, search) && !CapReached(maxRows, p.fixed) {
      var en := Text(row, "en");
      var zh := Text(row, "zh");
      var reply := rewrite(RewriteRequest(KeyOf(row), en, zh, Required(TermOrder, en, search)));
      if reply.Rewritten? && reply.text != "" && reply.text != zh {
        var o := row["zh" := Some(reply.text)];
        assert q.rows == p.rows[k := o];
        assert RowOutcome(row, o, search);
      } else {
        assert q.rows == p.rows;
      }
    } else {
      assert q == p;
    }
  }

  /** `rows_fixed` goes up by one exactly when the visited row's `zh` is replaced, and otherwise stays. */
  lemma StepFixed(p: Progress, k: nat, maxRows: int, search: (Term, string) -> bool, rewrite: RewriteRequest -> Reply)
    requires k < |p.rows|
    ensures StepRow(p, k, maxRows, search, rewrite).fixed == p.fixed + 1 <==>
      StepRow(p, k, maxRows, search, rewrite).rows[k] != p.rows[k]
    ensures StepRow(p, k, maxRows, search, rewrite).fixed == p.fixed ||
      StepRow(p, k, maxRows, search, rewrite).fixed == p.fixed + 1
  {
    var row := p.rows[k];
    if NeedsFix(row, search) && !CapReached(maxRows, p.fixed) {
      var en := Text(row, "en");
      var zh := Text(row, "zh");
      var reply := rewrite(RewriteRequest(KeyOf(row), en, zh, Required(TermOrder, en, search)));
      if reply.Rewritten? && reply.text != "" && reply.text != zh {
        assert row["zh" := Some(reply.text)]["zh"] != row["zh"];
      }
    }
  }

  /** The row-by-row invariant of the loop, carried over one visited row. */
  lemma OutcomesExtend(rows: seq<Row>, before: seq<Row>, after: seq<Row>, k: nat, search: (Term, string) -> bool)
    requires |before| == |rows| && |after| == |rows| && k < |rows|
    requires forall j :: 0 <= j < k ==> RowOutcome(rows[j], before[j], search)
    requires forall j :: k <= j < |rows| ==> before[j] == rows[j]
    requires RowOutcome(before[k], after[k], search)
    requires forall j :: 0 <= j < |rows| && j != k ==> after[j] == before[j]
    ensures forall j :: 0 <= j < k + 1 ==> RowOutcome(rows[j], after[j], search)
    ensures forall j :: k + 1 <= j < |rows| ==> after[j] == rows[j]
  {
    forall j | 0 <= j < k + 1
      ensures RowOutcome(rows[j], after[j], search)
    {
      if j < k {
        assert after[j] == before[j];
      } else {
        assert before[j] == rows[j];
      }
    }
  }

  /** Only rows that need a fix change among the first `n`, and only in their `zh` cell; the rest are as read. */
  lemma {:induction false} RunOutcomes(rows: seq<Row>, n: nat, maxRows: int, search: (Term, string) -> bool,
                                       rewrite: RewriteRequest -> Reply)
    requires n <= |rows|
    ensures forall j :: 0 <= j < n ==> RowOutcome(rows[j], Run(rows, n, maxRows, search, rewrite).rows[j], search)
    ensures forall j :: n <= j < |rows| ==> Run(rows, n, maxRows, search, rewrite).rows[j] == rows[j]
  {
    if n > 0 {
      RunOutcomes(rows, n - 1, maxRows, search, rewrite);
      var p := Run(rows, n - 1, maxRows, search, rewrite);
      StepRowEffect(p, n - 1, maxRows, search, rewrite);
      var q := StepRow(p, n - 1, maxRows, search, rewrite);
      OutcomesExtend(rows, p.rows, q.rows, n - 1, search);
      assert Run(rows, n, maxRows, search, rewrite) == q;
    }
  }

  /**
   * Only rows that need a fix change among the first `n`, and only in their `zh` cell; a row reached
   * after a positive cap is written as read; the rows not yet looked at are as read.
   */
  lemma RunRows(rows: seq<Row>, n: nat, maxRows: int, search: (Term, string) -> bool,
                rewrite: RewriteRequest -> Reply)
    requires n <= |rows|
    ensures forall j :: 0 <= j < n ==> RowOutcome(rows[j], Run(rows, n, maxRows, search, rewrite).rows[j], search)
    ensures forall j :: n <= j < |rows| ==> Run(rows, n, maxRows, search, rewrite).rows[j] == rows[j]
    ensures forall j :: 0 <= j < n && CapReached(maxRows, Run(rows, j, maxRows, search, rewrite).fixed) ==>
      Run(rows, n, maxRows, search, rewrite).rows[j] == rows[j]
  {
    RunOutcomes(rows, n, maxRows, search, rewrite);
    forall j | 0 <= j < n && CapReached(maxRows, Run(rows, j, maxRows, search, rewrite).fixed)
      ensures Run(rows, n, maxRows, search, rewrite).rows[j] == rows[j]
    {
      RunCapped(rows, j, n, maxRows, search, rewrite);
    }
  }

  /** Rows not yet visited are as read. */
  lemma {:induction false} RunUnvisited(rows: seq<Row>, n: nat, maxRows: int, search: (Term, string) -> bool,
                                        rewrite: RewriteRequest -> Reply)
    requires n <= |rows|
    ensures forall j :: n <= j < |rows| ==> Run(rows, n, maxRows, search, rewrite).rows[j] == rows[j]
  {
    if n > 0 {
      RunUnvisited(rows, n - 1, maxRows, search, rewrite);
      var p := Run(rows, n - 1, maxRows, search, rewrite);
      StepRowEffect(p, n - 1, maxRows, search, rewrite);
      var q := StepRow(p, n - 1, maxRows, search, rewrite);
      assert forall j :: n <= j < |rows| ==> q.rows[j] == p.rows[j];
      assert Run(rows, n, maxRows, search, rewrite) == q;
    }
  }

  /** `rows_fixed` counts exactly the rows, among the first `n`, whose `zh` was replaced. */
  lemma {:induction false} RunFixed(rows: seq<Row>, n: nat, maxRows: int, search: (Term, string) -> bool,
                                    rewrite: RewriteRequest -> Reply)
    requires n <= |rows|
    ensures Run(rows, n, maxRows, search, rewrite).fixed == Differing(rows, Run(rows, n, maxRows, search, rewrite).rows, n)
  {
    if n > 0 {
      RunFixed(rows, n - 1, maxRows, search, rewrite);
      RunUnvisited(rows, n - 1, maxRows, search, rewrite);
      var p := Run(rows, n - 1, maxRows, search, rewrite);
      var q := StepRow(p, n - 1, maxRows, search, rewrite);
      StepRowEffect(p, n - 1, maxRows, search, rewrite);
      StepFixed(p, n - 1, maxRows, search, rewrite);
      DifferingAgree(rows, p.rows, q.rows, n - 1);
      assert Run(rows, n, maxRows, search, rewrite) == q;
    }
  }

  /** Once a positive `max_rows` is reached, the state no longer changes. */
  lemma {:induction false} RunCappedState(rows: seq<Row>, j: nat, n: nat, maxRows: int, search: (Term, string) -> bool,
                                          rewrite: RewriteRequest -> Reply)
    requires j <= n <= |rows|
    requires CapReached(maxRows, Run(rows, j, maxRows, search, rewrite).fixed)
    ensures Run(rows, n, maxRows, search, rewrite) == Run(rows, j, maxRows, search, rewrite)
    decreases n
  {
    if n > j {
      RunCappedState(rows, j, n - 1, maxRows, search, rewrite);
      var p := Run(rows, n - 1, maxRows, search, rewrite);
      assert StepRow(p, n - 1, maxRows, search, rewrite) == p;
      assert Run(rows, n, maxRows, search, rewrite) == StepRow(p, n - 1, maxRows, search, rewrite);
    }
  }

  /**
   * Once a positive `max_rows` is reached, every later row is written as read and nothing else
   * changes: the state after `n` rows is the state at the moment the cap was reached.
   */
  lemma RunCapped(rows: seq<Row>, j: nat, n: nat, maxRows: int, search: (Term, string) -> bool,
                  rewrite: RewriteRequest -> Reply)
    requires j <= n <= |rows|
    requires CapReached(maxRows, Run(rows, j, maxRows, search, rewrite).fixed)
    ensures Run(rows, n, maxRows, search, rewrite) == Run(rows, j, maxRows, search, rewrite)
    ensures forall i :: j <= i < |rows| ==> Run(rows, n, maxRows, search, rewrite).rows[i] == rows[i]
  {
    RunCappedState(rows, j, n, maxRows, search, rewrite);
    RunUnvisited(rows, j, maxRows, search, rewrite);
  }

  /** The body of the row loop: the row at position `i` is visited as `StepRow` describes. */
  method VisitRow(p: Progress, i: nat, maxRows: int, search: (Term, string) -> bool, rewrite: RewriteRequest -> Reply)
    returns (q: Progress)
    requires i < |p.rows|
    ensures q == StepRow(p, i, maxRows, search, rewrite)
  {
    q := p;
    var row := p.rows[i];
    if ShouldSkipRow(row) {
      return;
    }
    if "en" !in row || "zh" !in row {
      return;
    }
    var enText := Text(row, "en");
    var zhText := Text(row, "zh");
    var key := KeyOf(row);
    var requiredTerms := RequiredZhTerms(enText, search);
    if requiredTerms == [] {
      return;
    }
    var missingTerms := MissingTerms(zhText, requiredTerms);
    if missingTerms == [] {
      return;
    }
    if maxRows > 0 && p.fixed >= maxRows {
      return;
    }
    match rewrite(RewriteRequest(key, enText, zhText, requiredTerms)) {
      case Failed =>
        q := p.(failed := p.failed + 1);
      case Rewritten(fixedZh) =>
        if fixedZh != "" && fixedZh != zhText {
          var counter := CountFixedTerms(p.counter, missingTerms, fixedZh);
          q := Progress(p.rows[i := row["zh" := Some(fixedZh)]], p.fixed + 1, p.failed, counter);
        }
    }
  }

  /**
   * `process_file` over rows already read: the rows are visited in order as `Run` describes; the
   * result is the rows written, `rows_fixed`, `rows_failed` and `term_counter`.
   */
  method ProcessFile(rows: seq<Row>, maxRows: int, search: (Term, string) -> bool, rewrite: RewriteRequest -> Reply)
    returns (out: seq<Row>, fixed: nat, failed: nat, counter: map<string, nat>)
    ensures Progress(out, fixed, failed, counter) == Run(rows, |rows|, maxRows, search, rewrite)
    ensures |out| == |rows|
    ensures maxRows > 0 ==> fixed <= maxRows
    ensures forall j :: 0 <= j < |rows| ==> RowOutcome(rows[j], out[j], search)
    ensures fixed == Differing(rows, out, |rows|)
  {
    var p := Progress(rows, 0, 0, map[]);
    for i := 0 to |rows|
      invariant p == Run(rows, i, maxRows, search, rewrite)
    {
      p := VisitRow(p, i, maxRows, search, rewrite);
    }
    out, fixed, failed, counter := p.rows, p.fixed, p.failed, p.counter;
    RunCounters(rows, |rows|, maxRows, search, rewrite, "");
    RunOutcomes(rows, |rows|, maxRows, search, rewrite);
    RunFixed(rows, |rows|, maxRows, search, rewrite);
  }
}
