/** Python's `None`-or-value, used for cells that may be missing and for lookups that may fail. */
module Options {
  datatype Option<T> = None | Some(value: T)
}

/** Generic list facts: order-preserving de-duplication, and counting the positions two lists differ at. */
module Seqs {

  predicate NoDuplicates<T(==,!new)>(xs: seq<T>)
  {
    forall i, j :: 0 <= i < j < |xs| ==> xs[i] != xs[j]
  }

  /**
   * The elements of `xs` in order, each kept at its first occurrence and skipped when it is
   * already in `seen` (the `seen` set of a de-duplicating loop).
   */
  function DedupFrom<T(==,!new)>(xs: seq<T>, seen: set<T>): (r: seq<T>)
    ensures NoDuplicates(r)
    ensures forall x :: x in r <==> x in xs && x !in seen
  {
    if xs == [] then []
    else if xs[0] in seen then DedupFrom(xs[1..], seen)
    else [xs[0]] + DedupFrom(xs[1..], seen + {xs[0]})
  }

  function Dedup<T(==,!new)>(xs: seq<T>): (r: seq<T>)
    ensures NoDuplicates(r)
    ensures forall x :: x in r <==> x in xs
  {
    DedupFrom(xs, {})
  }

  /** Dropping the last element of a duplicate-free list leaves one, and that element is not in the rest. */
  lemma DistinctInit<T(!new)>(xs: seq<T>)
    requires NoDuplicates(xs) && xs != []
    ensures NoDuplicates(xs[..|xs| - 1])
    ensures xs[|xs| - 1] !in xs[..|xs| - 1]
  {
    var init := xs[..|xs| - 1];
    forall i | 0 <= i < |init| ensures init[i] != xs[|xs| - 1] {
      assert init[i] == xs[i];
    }
  }

  /** Appending a new element keeps a list free of duplicates. */
  lemma DistinctAppend<T(!new)>(xs: seq<T>, x: T)
    requires NoDuplicates(xs) && x !in xs
    ensures NoDuplicates(xs + [x])
  {
    var ys := xs + [x];
    forall i, j | 0 <= i < j < |ys| ensures ys[i] != ys[j] {
      if j < |xs| {
        assert ys[i] == xs[i] && ys[j] == xs[j];
      } else {
        assert ys[i] == xs[i];
      }
    }
  }

  /** The de-duplicating loop: keep each element at its first occurrence, remembering what was seen. */
  method DedupList<T(==,!new)>(xs: seq<T>) returns (out: seq<T>)
    ensures out == Dedup(xs)
  {
    out := [];
    var seen: set<T> := {};
    for i := 0 to |xs|
      invariant out + DedupFrom(xs[i..], seen) == Dedup(xs)
    {
      assert xs[i..][1..] == xs[i + 1..];
      if xs[i] !in seen {
        out := out + [xs[i]];
        seen := seen + {xs[i]};
      }
    }
    assert out + [] == out;
  }

  /** A list without duplicates is its own de-duplication, so its order is kept exactly. */
  lemma {:induction false} DedupDistinct<T(!new)>(xs: seq<T>, seen: set<T>)
    requires NoDuplicates(xs)
    requires forall x :: x in xs ==> x !in seen
    ensures DedupFrom(xs, seen) == xs
  {
    if xs != [] {
      assert forall x :: x in xs[1..] ==> x != xs[0] && x in xs;
      DedupDistinct(xs[1..], seen + {xs[0]});
    }
  }

  /** The number of positions among the first `n` at which `after` differs from `before`. */
  function Differing<T(==)>(before: seq<T>, after: seq<T>, n: nat): (r: nat)
    requires n <= |before| && n <= |after|
    ensures r <= n
  {
    if n == 0 then 0 else Differing(before, after, n - 1) + (if after[n - 1] != before[n - 1] then 1 else 0)
  }

  /** The count only looks at the first `n` positions: lists that agree there give the same count. */
  lemma {:induction false} DifferingAgree<T>(before: seq<T>, a: seq<T>, b: seq<T>, n: nat)
    requires n <= |before| && n <= |a| && n <= |b|
    requires forall i :: 0 <= i < n ==> a[i] == b[i]
    ensures Differing(before, a, n) == Differing(before, b, n)
  {
    if n > 0 {
      DifferingAgree(before, a, b, n - 1);
    }
  }
}

/**
 * CSV rows as the scripts see them through `csv.DictReader`, and the two row helpers that three of the
 * scripts define: `normalize_text` and `should_skip_row` (the copies in check_missing_translations.py
 * spell them with `or ""` and `str(v)`, which agree with the others on cells that are `None` or a string).
 */
module Rows {
  import opened Strings
  import opened Options

  /** A data row: column name to cell; a cell the line was too short to fill is `None`. */
  type Row = map<string, Option<string>>

  /** A cell that holds nothing but whitespace, or is `None`. */
  predicate IsBlank(v: Option<string>)
  {
    v.None? || forall k :: 0 <= k < |v.value| ==> IsSpace(v.value[k])
  }

  /** `row.get(col)` */
  function Get(row: Row, col: string): Option<string>
  {
    if col in row then row[col] else None
  }

  /** `row.get(col) or ""` */
  function Text(row: Row, col: string): (r: string)
    ensures col in row && row[col].Some? ==> r == row[col].value
    ensures (col !in row || row[col].None?) ==> r == ""
  {
    match Get(row, col)
    case None => ""
    case Some(s) => s
  }

  /** `normalize_text`: `None` becomes the empty string, anything else is stripped. */
  function Normalize(v: Option<string>): (r: string)
    ensures IsStripped(r)
  {
    match v
    case None => ""
    case Some(s) => Strip(s)
  }

  /** A cell normalizes to the empty string exactly when it is blank. */
  lemma NormalizeBlank(v: Option<string>)
    ensures Normalize(v) == "" <==> IsBlank(v)
  {
    if v.Some? {
      StripEmptyIff(v.value);
    }
  }

  /** The stripped `KEY` cell of a row, `""` when there is none. */
  function KeyOf(row: Row): string
  {
    Normalize(Get(row, "KEY"))
  }

  /** `should_skip_row`: comment rows (key starting with `//`) and rows whose every cell is blank. */
  predicate ShouldSkipRow(row: Row)
  {
    StartsWith(KeyOf(row), "//") || forall v :: v in row.Values ==> Normalize(v) == ""
  }

  /** A row is skipped exactly when its stripped key is a `//` comment or every cell is `None` or whitespace. */
  lemma ShouldSkipRowMeaning(row: Row)
    ensures ShouldSkipRow(row) <==> StartsWith(KeyOf(row), "//") || forall col :: col in row ==> IsBlank(row[col])
  {
    forall v | v in row.Values ensures Normalize(v) == "" <==> IsBlank(v) {
      NormalizeBlank(v);
    }
    if forall col :: col in row ==> IsBlank(row[col]) {
      forall v | v in row.Values ensures IsBlank(v) {
        var col :| col in row && row[col] == v;
      }
    }
  }

  /** A Python `Counter` restricted to what the scripts do with it: read a count (0 when absent) and add to it. */
  function Count<K>(c: map<K, nat>, k: K): nat
  {
    if k in c then c[k] else 0
  }

  function AddCount<K(!new)>(c: map<K, nat>, k: K, n: nat): (r: map<K, nat>)
    ensures Count(r, k) == Count(c, k) + n
    ensures forall k' :: k' != k ==> Count(r, k') == Count(c, k')
  {
    c[k := Count(c, k) + n]
  }
}
