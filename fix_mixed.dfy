/**
 * `fix_mixed_terms_zh.py`: in `zh` cells that contain Chinese, replace English game terms left in
 * the text by their Chinese renderings, counting the replacements made for each term.
 */
module FixMixed {
  import opened Options
  import opened Strings
  import opened Rows
  import opened Terms
  import opened Seqs

  // ---------------------------------------------------------------------------------------------
  // CJK detection (`has_cjk`)
  // ---------------------------------------------------------------------------------------------

  /** `CJK_PATTERN`: CJK Extension A, CJK Unified Ideographs, CJK Compatibility Ideographs. */
  predicate IsCjk(c: char)
  {
    || '㐀' <= c <= '䶿'
    || '一' <= c <= '鿿'
    || '豈' <= c <= '﫿'
  }

  /** `CJK_PATTERN.search(text)`, scanning from the left. */
  predicate HasCjk(s: string)
  {
    s != [] && (IsCjk(s[0]) || HasCjk(s[1..]))
  }

  /** The search succeeds exactly when some character lies in one of the three ranges. */
  lemma {:induction false} HasCjkIff(s: string)
    ensures HasCjk(s) <==> exists k :: 0 <= k < |s| && IsCjk(s[k])
  {
    if s != [] {
      HasCjkIff(s[1..]);
      if exists k :: 0 <= k < |s| && IsCjk(s[k]) {
        var k :| 0 <= k < |s| && IsCjk(s[k]);
        if k > 0 {
          assert s[1..][k - 1] == s[k];
        }
      }
      if HasCjk(s[1..]) {
        var k :| 0 <= k < |s[1..]| && IsCjk(s[1..][k]);
        assert s[k + 1] == s[1..][k];
      }
    }
  }

  // ---------------------------------------------------------------------------------------------
  // Term substitution (`fix_zh_terms`)
  // ---------------------------------------------------------------------------------------------

  /**
   * `sub(t, s)` stands for `TERM_PATTERNS[t].sub(_repl, s)`: the text with every match of the
   * pattern of `t` replaced by `ZhTerm(t)`, and the number of matches (the calls to `_repl`).
   */
  type Substitution = (Term, string) -> (string, nat)

  /** The text after the substitutions of `terms` in order, and the per-term counter (terms with no hit absent). */
  function FixTerms(terms: seq<Term>, text: string, sub: Substitution): (string, map<Term, nat>)
  {
    if terms == [] then (text, map[])
    else
      var before := FixTerms(terms[..|terms| - 1], text, sub);
      var term := terms[|terms| - 1];
      var step := sub(term, before.0);
      (step.0, if step.1 > 0 then AddCount(before.1, term, step.1) else before.1)
  }

  /** The counter only holds the terms that were substituted at least once. */
  lemma {:induction false} FixTermsKeys(terms: seq<Term>, text: string, sub: Substitution, t: Term)
    ensures t in FixTerms(terms, text, sub).1 ==> t in terms && FixTerms(terms, text, sub).1[t] > 0
  {
    if terms != [] {
      FixTermsKeys(terms[..|terms| - 1], text, sub, t);
    }
  }

  /**
   * With every term listed once, a term's count is the number of matches its substitution found in
   * the text left by the terms before it.
   */
  lemma {:induction false} FixTermsCount(terms: seq<Term>, text: string, sub: Substitution, i: nat)
    requires NoDuplicates(terms) && i < |terms|
    ensures Count(FixTerms(terms, text, sub).1, terms[i]) == sub(terms[i], FixTerms(terms[..i], text, sub).0).1
  {
    var init := terms[..|terms| - 1];
    var last := terms[|terms| - 1];
    DistinctInit(terms);
    if i < |init| {
      FixTermsCount(init, text, sub, i);
      assert init[..i] == terms[..i];
      assert terms[i] == init[i] != last;
    } else {
      assert init == terms[..i];
      FixTermsKeys(init, text, sub, last);
    }
  }

  /**
   * When no pattern matches the text, and a substitution without matches gives back its input, the
   * text is returned unchanged with an empty counter.
   */
  lemma {:induction false} FixTermsNoMatch(terms: seq<Term>, text: string, sub: Substitution)
    requires forall t :: sub(t, text).1 == 0 && sub(t, text).0 == text
    ensures FixTerms(terms, text, sub) == (text, map[])
  {
    if terms != [] {
      FixTermsNoMatch(terms[..|terms| - 1], text, sub);
    }
  }

  /** `fix_zh_terms`: the loop over `TERM_PATTERNS`, rebinding the text and counting the hits. */
  method FixZhTerms(text: string, sub: Substitution) returns (fixed: string, counter: map<Term, nat>)
    ensures (fixed, counter) == FixTerms(TermOrder, text, sub)
  {
    fixed, counter := text, map[];
    for i := 0 to |TermOrder|
      invariant (fixed, counter) == FixTerms(TermOrder[..i], text, sub)
    {
      assert TermOrder[..i + 1][..i] == TermOrder[..i];
      var term := TermOrder[i];
      var result := sub(term, fixed);
      fixed := result.0;
      if result.1 > 0 {
        counter := AddCount(counter, term, result.1);
      }
    }
    assert TermOrder[..|TermOrder|] == TermOrder;
  }

  // ---------------------------------------------------------------------------------------------
  // The row loop of `process_file`
  // ---------------------------------------------------------------------------------------------

  /** `Counter.update` with another counter: counts are added term by term. */
  function AddCounts(c: map<Term, nat>, hits: map<Term, nat>): (r: map<Term, nat>)
    ensures forall t :: Count(r, t) == Count(c, t) + Count(hits, t)
  {
    map t | t in c.Keys + hits.Keys :: Count(c, t) + Count(hits, t)
  }

  /** A row whose `zh` text is handed to `fix_zh_terms`: not a comment, and with a `zh` text that has Chinese in it. */
  predicate Candidate(row: Row)
  {
    && !StartsWith(KeyOf(row), "//")
    && "zh" in row && row["zh"].Some?
    && row["zh"].value != "" && HasCjk(row["zh"].value)
  }

  /** A candidate row whose text the substitutions change. */
  predicate Changes(row: Row, sub: Substitution)
  {
    Candidate(row) && FixTerms(TermOrder, row["zh"].value, sub).0 != row["zh"].value
  }

  /** The row as written: with the fixed `zh` text when that differs, as read otherwise. */
  function Rewritten(row: Row, sub: Substitution): Row
  {
    if Changes(row, sub) then row["zh" := Some(FixTerms(TermOrder, row["zh"].value, sub).0)] else row
  }

  /** The hits a row adds to the file counter: its own counter when it changes, nothing otherwise. */
  function RowHits(row: Row, sub: Substitution): map<Term, nat>
  {
    if Changes(row, sub) then FixTerms(TermOrder, row["zh"].value, sub).1 else map[]
  }

  /** A row is written differently exactly when it changes. */
  lemma RewrittenIff(row: Row, sub: Substitution)
    ensures Rewritten(row, sub) != row <==> Changes(row, sub)
  {
    if Changes(row, sub) {
      assert Rewritten(row, sub)["zh"] != row["zh"];
    }
  }

  /** Comment rows, rows without a `zh` text and rows whose `zh` has no Chinese are written as read. */
  lemma RewrittenKeeps(row: Row, sub: Substitution)
    ensures StartsWith(KeyOf(row), "//") ==> Rewritten(row, sub) == row
    ensures "zh" !in row || row["zh"].None? ==> Rewritten(row, sub) == row
    ensures "zh" in row && row["zh"].Some? && !HasCjk(row["zh"].value) ==> Rewritten(row, sub) == row
  {
  }

  /** The rows so far, `rows_changed` and `file_counter`. */
  datatype Progress = Progress(rows: seq<Row>, changed: nat, counter: map<Term, nat>)

  /** One iteration of the row loop, for the row at position `k`. */
  function StepRow(p: Progress, k: nat, sub: Substitution): Progress
    requires k < |p.rows|
  {
    var row := p.rows[k];
    if Candidate(row) then
      var zh := row["zh"].value;
      var result := FixTerms(TermOrder, zh, sub);
      if result.0 != zh then
        Progress(p.rows[k := row["zh" := Some(result.0)]], p.changed + 1, AddCounts(p.counter, result.1))
      else p
    else p
  }

  /** The state after the first `n` rows. */
  function Run(rows: seq<Row>, n: nat, sub: Substitution): (p: Progress)
    requires n <= |rows|
    ensures |p.rows| == |rows|
  {
    if n == 0 then Progress(rows, 0, map[]) else StepRow(Run(rows, n - 1, sub), n - 1, sub)
  }

  /** The number of rows among the first `n` that change. */
  function ChangedRows(rows: seq<Row>, n: nat, sub: Substitution): nat
    requires n <= |rows|
  {
    if n == 0 then 0 else ChangedRows(rows, n - 1, sub) + (if Changes(rows[n - 1], sub) then 1 else 0)
  }

  /** The hits of term `t` summed over the rows among the first `n` that change. */
  function TermHits(rows: seq<Row>, n: nat, sub: Substitution, t: Term): nat
    requires n <= |rows|
  {
    if n == 0 then 0 else TermHits(rows, n - 1, sub, t) + Count(RowHits(rows[n - 1], sub), t)
  }

  /** One step writes the visited row as `Rewritten` says and adds its change and its hits. */
  lemma StepRowEffect(p: Progress, k: nat, sub: Substitution, row: Row)
    requires k < |p.rows| && p.rows[k] == row
    ensures StepRow(p, k, sub).rows == p.rows[k := Rewritten(row, sub)]
    ensures StepRow(p, k, sub).changed == p.changed + (if Changes(row, sub) then 1 else 0)
    ensures forall t :: Count(StepRow(p, k, sub).counter, t) == Count(p.counter, t) + Count(RowHits(row, sub), t)
  {
    if !Changes(row, sub) {
      assert p.rows[k := row] == p.rows;
    }
  }

  /** After `n` rows, each of them is written as `Rewritten` says and the rest are as read. */
  lemma {:induction false} RunRows(rows: seq<Row>, n: nat, sub: Substitution)
    requires n <= |rows|
    ensures forall j :: 0 <= j < n ==> Run(rows, n, sub).rows[j] == Rewritten(rows[j], sub)
    ensures forall j :: n <= j < |rows| ==> Run(rows, n, sub).rows[j] == rows[j]
  {
    if n > 0 {
      RunRows(rows, n - 1, sub);
      var p := Run(rows, n - 1, sub);
      StepRowEffect(p, n - 1, sub, rows[n - 1]);
      assert Run(rows, n, sub) == StepRow(p, n - 1, sub);
    }
  }

  /** `rows_changed` after `n` rows is the number of those rows that changed. */
  lemma {:induction false} RunChanged(rows: seq<Row>, n: nat, sub: Substitution)
    requires n <= |rows|
    ensures Run(rows, n, sub).changed == ChangedRows(rows, n, sub)
  {
    if n > 0 {
      RunChanged(rows, n - 1, sub);
      RunRows(rows, n - 1, sub);
      var p := Run(rows, n - 1, sub);
      StepRowEffect(p, n - 1, sub, rows[n - 1]);
      assert Run(rows, n, sub) == StepRow(p, n - 1, sub);
    }
  }

  /** Each term's count in `file_counter` after `n` rows sums its hits over the rows that changed, and no others. */
  lemma {:induction false} RunHits(rows: seq<Row>, n: nat, sub: Substitution, t: Term)
    requires n <= |rows|
    ensures Count(Run(rows, n, sub).counter, t) == TermHits(rows, n, sub, t)
  {
    if n > 0 {
      RunHits(rows, n - 1, sub, t);
      RunRows(rows, n - 1, sub);
      var p := Run(rows, n - 1, sub);
      StepRowEffect(p, n - 1, sub, rows[n - 1]);
      assert Run(rows, n, sub) == StepRow(p, n - 1, sub);
    }
  }

  /** The body of the row loop: the row at position `i` is visited as `StepRow` describes. */
  method VisitRow(p: Progress, i: nat, sub: Substitution) returns (q: Progress)
    requires i < |p.rows|
    ensures q == StepRow(p, i, sub)
  {
    q := p;
    var row := p.rows[i];
    var key := Normalize(Get(row, "KEY"));
    if StartsWith(key, "//") {
      return;
    }
    if "zh" !in row || row["zh"].None? {
      return;
    }
    var zhText := row["zh"].value;
    if zhText == "" || !HasCjk(zhText) {
      return;
    }
    var fixedText, termHits := FixZhTerms(zhText, sub);
    if fixedText != zhText {
      q := Progress(p.rows[i := row["zh" := Some(fixedText)]], p.changed + 1, AddCounts(p.counter, termHits));
    }
  }

  /**
   * `process_file` over rows already read: every row is written as `Rewritten` says, `rows_changed`
   * counts exactly the rows written differently, and `file_counter` sums the hits of those rows.
   */
  method ProcessFile(rows: seq<Row>, sub: Substitution) returns (out: seq<Row>, changed: nat, counter: map<Term, nat>)
    ensures |out| == |rows|
    ensures forall j :: 0 <= j < |rows| ==> out[j] == Rewritten(rows[j], sub)
    ensures changed == ChangedRows(rows, |rows|, sub)
    ensures forall t :: Count(counter, t) == TermHits(rows, |rows|, sub, t)
  {
    var p := Progress(rows, 0, map[]);
    for i := 0 to |rows|
      invariant p == Run(rows, i, sub)
    {
      p := VisitRow(p, i, sub);
    }
    out, changed, counter := p.rows, p.changed, p.counter;
    RunRows(rows, |rows|, sub);
    RunChanged(rows, |rows|, sub);
    forall t ensures Count(counter, t) == TermHits(rows, |rows|, sub, t) {
      RunHits(rows, |rows|, sub, t);
    }
  }
}
