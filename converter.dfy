/**
 * The dictionary-driven Simplified-to-Traditional converter of scripts/simplified_to_traditional.py:
 * the tab-separated dictionary loader, the derived maximum phrase length, greedy longest-match
 * conversion with per-character fallback, and the per-cell gate of the CSV rewrite.
 *
 * The script keeps `phrase_map`, `char_map` and `max_phrase_len` as module globals that are filled once
 * and then only read; here they are the immutable value `Tables`, passed to every conversion.
 */
module Converter {
  import opened Strings
  import opened Options

  type Table = map<string, string>

  /** The two loaded dictionaries and the phrase-window bound used by the converter. */
  datatype Tables = Tables(phrases: Table, chars: Table, maxPhraseLen: nat)

  // ---------------------------------------------------------------------------------------------
  // Dictionary loader (`load_dict`)
  // ---------------------------------------------------------------------------------------------

  /** `[p for p in parts if p]` */
  function NonEmpty(parts: seq<string>): (r: seq<string>)
    ensures forall k :: 0 <= k < |r| ==> r[k] != [] && r[k] in parts
    ensures forall p :: p in parts && p != [] ==> p in r
    ensures |r| <= |parts|
  {
    if parts == [] then []
    else if parts[0] == [] then NonEmpty(parts[1..])
    else [parts[0]] + NonEmpty(parts[1..])
  }

  /** The filter works part by part: filtering a concatenation filters each half and keeps their order. */
  lemma {:induction false} NonEmptyAppend(a: seq<string>, b: seq<string>)
    ensures NonEmpty(a + b) == NonEmpty(a) + NonEmpty(b)
  {
    if a == [] {
      assert a + b == b;
    } else {
      assert (a + b)[1..] == a[1..] + b;
      NonEmptyAppend(a[1..], b);
    }
  }

  /** The first part kept is the first non-empty part: every part before it is empty. */
  lemma {:induction false} NonEmptyHead(parts: seq<string>, j: nat)
    requires j < |parts| && parts[j] != []
    requires forall i :: 0 <= i < j ==> parts[i] == []
    ensures NonEmpty(parts) != [] && NonEmpty(parts)[0] == parts[j]
  {
    if j > 0 {
      forall i | 0 <= i < j - 1 ensures parts[1..][i] == [] {
        assert parts[1..][i] == parts[i + 1];
      }
      NonEmptyHead(parts[1..], j - 1);
    }
  }

  /** Some part is non-empty, so there is a first one. */
  lemma FirstNonEmpty(parts: seq<string>) returns (j: nat)
    requires exists p :: p in parts && p != []
    ensures j < |parts| && parts[j] != [] && forall i :: 0 <= i < j ==> parts[i] == []
  {
    var p :| p in parts && p != [];
    var k :| 0 <= k < |parts| && parts[k] == p;
    j := 0;
    while parts[j] == []
      invariant j <= k && forall i :: 0 <= i < j ==> parts[i] == []
      decreases k - j
    {
      j := j + 1;
    }
  }

  /**
   * One dictionary line after `line.strip()`: the non-empty tab-separated fields, and, when there are
   * at least two, the entry `(field 0, first space-separated token of field 1)`.
   */
  function ParseLine(line: string): Option<(string, string)>
  {
    var stripped := Strip(line);
    if stripped == [] then None
    else
      var parts := NonEmpty(SplitOn(stripped, '\t'));
      if |parts| >= 2 then Some((parts[0], SplitOn(parts[1], ' ')[0])) else None
  }

  /** The line yields an entry whose source key is `k`. */
  predicate DefinesKey(line: string, k: string)
  {
    ParseLine(line).Some? && ParseLine(line).value.0 == k
  }

  /** Every stored key is a non-empty field without tabs. */
  lemma ParsedKeyShape(line: string)
    requires ParseLine(line).Some?
    ensures ParseLine(line).value.0 != []
    ensures '\t' !in ParseLine(line).value.0
  {
    var stripped := Strip(line);
    var fields := SplitOn(stripped, '\t');
    SplitJoin(stripped, '\t');
    var parts := NonEmpty(fields);
    assert parts[0] in fields;
    var k :| 0 <= k < |fields| && fields[k] == parts[0];
  }

  lemma {:induction false} SplitNoSep(s: string, sep: char)
    requires sep !in s
    ensures SplitOn(s, sep) == [s]
  {
    if s != [] {
      SplitNoSep(s[1..], sep);
      assert [s[0]] + s[1..] == s;
    }
  }

  lemma {:induction false} SplitAtSep(a: string, sep: char, b: string)
    requires sep !in a
    ensures SplitOn(a + [sep] + b, sep) == [a] + SplitOn(b, sep)
  {
    if a == [] {
      assert [sep] + b == a + [sep] + b;
      assert ([sep] + b)[1..] == b;
    } else {
      assert (a + [sep] + b)[1..] == a[1..] + [sep] + b;
      SplitAtSep(a[1..], sep, b);
      assert [a[0]] + a[1..] == a;
    }
  }

  /** A line without a tab has at most one field, so it adds nothing to the table. */
  lemma NoTabNoEntry(line: string)
    requires '\t' !in line
    ensures ParseLine(line) == None
  {
    var stripped := Strip(line);
    if stripped != [] {
      StripSlice(line);
      var a :| OccursAt(stripped, line, a);
      forall c | c in stripped ensures c != '\t' {
        var k :| 0 <= k < |stripped| && stripped[k] == c;
        assert line[a + k] == c;
      }
      SplitNoSep(stripped, '\t');
    }
  }

  /**
   * A line yields an entry exactly when a tab is left after `strip()`. The stripped line starts and
   * ends with non-whitespace, so its first and last tab-separated fields are non-empty; a line such as
   * `key<TAB>` or `<TAB>key` strips down to one field and adds nothing.
   */
  lemma ParseLineSomeIff(line: string)
    ensures ParseLine(line).Some? <==> '\t' in Strip(line)
  {
    var stripped := Strip(line);
    var fields := SplitOn(stripped, '\t');
    if '\t' in stripped {
      SplitAtLeastTwo(stripped, '\t');
      SplitFirstPiece(stripped, '\t');
      SplitLastPiece(stripped, '\t');
      assert fields == [fields[0]] + fields[1..];
      NonEmptyAppend([fields[0]], fields[1..]);
      assert fields[1..][|fields| - 2] == fields[|fields| - 1];
      assert fields[|fields| - 1] in fields[1..];
      assert fields[|fields| - 1] in NonEmpty(fields[1..]);
    } else if stripped != [] {
      SplitNoSep(stripped, '\t');
    }
  }

  /**
   * The entry of a line: its source key is the text before the first tab of the stripped line, and its
   * value is the first space-separated token of the next non-empty field (empty fields between tabs
   * are skipped, and fields after it are ignored).
   */
  lemma ParseLineEntry(line: string) returns (j: nat)
    requires ParseLine(line).Some?
    ensures ParseLine(line).value.0 == SplitOn(Strip(line), '\t')[0]
    ensures 1 <= j < |SplitOn(Strip(line), '\t')| && SplitOn(Strip(line), '\t')[j] != []
    ensures forall i :: 1 <= i < j ==> SplitOn(Strip(line), '\t')[i] == []
    ensures ParseLine(line).value.1 == SplitOn(SplitOn(Strip(line), '\t')[j], ' ')[0]
  {
    var stripped := Strip(line);
    var fields := SplitOn(stripped, '\t');
    ParseLineSomeIff(line);
    SplitAtLeastTwo(stripped, '\t');
    SplitFirstPiece(stripped, '\t');
    SplitLastPiece(stripped, '\t');
    var rest := fields[1..];
    assert fields == [fields[0]] + rest;
    NonEmptyAppend([fields[0]], rest);
    assert rest[|rest| - 1] == fields[|fields| - 1];
    var j' := FirstNonEmpty(rest);
    NonEmptyHead(rest, j');
    j := j' + 1;
    forall i | 1 <= i < j ensures fields[i] == [] {
      assert fields[i] == rest[i - 1];
    }
  }

  /** An empty field between two tabs is skipped: `a<TAB><TAB>b` stores `b` under `a`. */
  lemma ParseLineSkipsEmptyField()
    ensures ParseLine("a\t\tb") == Some(("a", "b"))
  {
    StripStripped("a\t\tb");
    SplitNoSep("b", '\t');
    SplitAtSep("", '\t', "b");
    assert "" + ['\t'] + "b" == "\tb";
    SplitAtSep("a", '\t', "\tb");
    assert "a" + ['\t'] + "\tb" == "a\t\tb";
    assert SplitOn("a\t\tb", '\t') == ["a", "", "b"];
    assert NonEmpty(["a", "", "b"]) == ["a"] + NonEmpty(["", "b"]);
    assert NonEmpty(["", "b"]) == NonEmpty(["b"]);
    SplitNoSep("b", ' ');
  }

  /** A third field is ignored: `a<TAB>b<TAB>c` stores `b` under `a`. */
  lemma ParseLineIgnoresThirdField()
    ensures ParseLine("a\tb\tc") == Some(("a", "b"))
  {
    StripStripped("a\tb\tc");
    SplitNoSep("c", '\t');
    SplitAtSep("b", '\t', "c");
    assert "b" + ['\t'] + "c" == "b\tc";
    SplitAtSep("a", '\t', "b\tc");
    assert "a" + ['\t'] + "b\tc" == "a\tb\tc";
    assert SplitOn("a\tb\tc", '\t') == ["a", "b", "c"];
    assert NonEmpty(["a", "b", "c"]) == ["a"] + NonEmpty(["b", "c"]);
    assert NonEmpty(["b", "c"]) == ["b"] + NonEmpty(["c"]);
    SplitNoSep("b", ' ');
  }

  /** A tab at either end is stripped with the line, leaving one field: `key<TAB>` and `<TAB>key` add nothing. */
  lemma ParseLineEdgeTab()
    ensures ParseLine("key\t") == None
    ensures ParseLine("\tkey") == None
  {
    assert TrimStart("key\t") == "key\t";
    assert TrimEnd("key\t") == TrimEnd("key") == "key";
    ParseLineSomeIff("key\t");
    assert TrimStart("\tkey") == TrimStart("key") == "key";
    assert TrimEnd("key") == "key";
    ParseLineSomeIff("\tkey");
  }

  /** A stripped line made of two tab-free fields yields the entry (field 0, first token of field 1). */
  lemma TwoFields(source: string, field: string)
    requires source != [] && field != [] && '\t' !in source && '\t' !in field
    requires IsStripped(source + ['\t'] + field)
    ensures ParseLine(source + ['\t'] + field) == Some((source, SplitOn(field, ' ')[0]))
  {
    var line := source + ['\t'] + field;
    StripStripped(line);
    SplitNoSep(field, '\t');
    SplitAtSep(source, '\t', field);
    assert SplitOn(line, '\t') == [source, field];
    assert NonEmpty([field]) == [field];
    assert NonEmpty([source, field]) == [source] + NonEmpty([source, field][1..]);
    assert [source, field][1..] == [field];
  }

  /** The first space-separated token of `candidate alternates` is `candidate`. */
  lemma FirstToken(candidate: string, alternates: string)
    requires ' ' !in candidate
    requires alternates == [] || alternates[0] == ' '
    ensures SplitOn(candidate + alternates, ' ')[0] == candidate
  {
    if alternates == [] {
      SplitNoSep(candidate, ' ');
      assert candidate + alternates == candidate;
    } else {
      assert candidate + alternates == candidate + [' '] + alternates[1..];
      SplitAtSep(candidate, ' ', alternates[1..]);
    }
  }

  /**
   * A well-formed entry line `source<TAB>candidate[ alternates]` stores `candidate`: the source key is
   * kept verbatim and only the first space-separated candidate survives.
   */
  lemma EntryLine(source: string, candidate: string, alternates: string)
    requires source != [] && '\t' !in source && !IsSpace(source[0])
    requires candidate != [] && '\t' !in candidate && ' ' !in candidate
    requires '\t' !in alternates
    requires IsStripped(candidate + alternates)
    requires alternates == [] || alternates[0] == ' '
    ensures ParseLine(source + ['\t'] + candidate + alternates) == Some((source, candidate))
  {
    var field := candidate + alternates;
    var line := source + ['\t'] + field;
    assert line == source + ['\t'] + candidate + alternates;
    assert IsStripped(line) by {
      assert line[0] == source[0];
      assert line[|line| - 1] == field[|field| - 1];
    }
    assert '\t' !in field;
    TwoFields(source, field);
    FirstToken(candidate, alternates);
  }

  /** Adds the entry of one line, overwriting an earlier value for the same key. */
  function Insert(m: Table, line: string): Table
  {
    match ParseLine(line)
    case None => m
    case Some(entry) => m[entry.0 := entry.1]
  }

  /** The table after reading `lines` in order into `m`. */
  function LoadLines(m: Table, lines: seq<string>): Table
  {
    if lines == [] then m else Insert(LoadLines(m, lines[..|lines| - 1]), lines[|lines| - 1])
  }

  /** The number of lines that yield an entry (`count` in `load_dict`). */
  function EntryCount(lines: seq<string>): (r: nat)
    ensures r <= |lines|
  {
    if lines == [] then 0
    else EntryCount(lines[..|lines| - 1]) + (if ParseLine(lines[|lines| - 1]).Some? then 1 else 0)
  }

  /** Last write wins: a key holds the value of the last line that defines it. */
  lemma {:induction false} LoadLinesLastWins(m: Table, lines: seq<string>, k: string, j: nat)
    requires j < |lines| && DefinesKey(lines[j], k)
    requires forall j' :: j < j' < |lines| ==> !DefinesKey(lines[j'], k)
    ensures k in LoadLines(m, lines) && LoadLines(m, lines)[k] == ParseLine(lines[j]).value.1
  {
    var init := lines[..|lines| - 1];
    if j < |lines| - 1 {
      assert init[j] == lines[j];
      forall j' | j < j' < |init| ensures !DefinesKey(init[j'], k) {
        assert init[j'] == lines[j'];
      }
      LoadLinesLastWins(m, init, k, j);
    }
  }

  /** A key that no line defines keeps whatever the table held before loading. */
  lemma {:induction false} LoadLinesUntouched(m: Table, lines: seq<string>, k: string)
    requires forall j :: 0 <= j < |lines| ==> !DefinesKey(lines[j], k)
    ensures k in LoadLines(m, lines) <==> k in m
    ensures k in m ==> LoadLines(m, lines)[k] == m[k]
  {
    if lines != [] {
      var init := lines[..|lines| - 1];
      forall j | 0 <= j < |init| ensures !DefinesKey(init[j], k) {
        assert init[j] == lines[j];
      }
      LoadLinesUntouched(m, init, k);
    }
  }

  /** A repeated key: `家<TAB>甲` followed by `家<TAB>乙` leaves `家` mapped to `乙`. */
  lemma DuplicateKeyExample()
    ensures "家" in LoadLines(map[], ["家\t甲", "家\t乙"])
    ensures LoadLines(map[], ["家\t甲", "家\t乙"])["家"] == "乙"
  {
    EntryLine("家", "甲", "");
    EntryLine("家", "乙", "");
    assert "家" + ['\t'] + "乙" + "" == "家\t乙";
    LoadLinesLastWins(map[], ["家\t甲", "家\t乙"], "家", 1);
  }

  /**
   * `load_dict`: a missing dictionary file (`None`) leaves the table as it was; otherwise every line is
   * parsed in order into the table, and `count` is the number of lines that carried an entry.
   */
  method LoadDict(file: Option<seq<string>>, target: Table) returns (table: Table, count: nat)
    ensures file.None? ==> table == target && count == 0
    ensures file.Some? ==> table == LoadLines(target, file.value) && count == EntryCount(file.value)
    ensures count <= (if file.Some? then |file.value| else 0)
  {
    table, count := target, 0;
    if file.None? {
      return;
    }
    var lines := file.value;
    for i := 0 to |lines|
      invariant table == LoadLines(target, lines[..i])
      invariant count == EntryCount(lines[..i])
    {
      assert lines[..i + 1][..i] == lines[..i];
      var entry := ParseLine(lines[i]);
      if entry.Some? {
        table := table[entry.value.0 := entry.value.1];
        count := count + 1;
      }
    }
    assert lines[..|lines|] == lines;
  }

  // ---------------------------------------------------------------------------------------------
  // Maximum phrase length
  // ---------------------------------------------------------------------------------------------

  /** `m` is the longest key length of `phrases`, and 0 when `phrases` is empty. */
  predicate IsMaxKeyLen(phrases: Table, m: nat)
  {
    && (forall k :: k in phrases ==> |k| <= m)
    && (phrases == map[] ==> m == 0)
    && (phrases != map[] ==> exists k :: k in phrases && |k| == m)
  }

  /** The bound is determined by the table alone. */
  lemma MaxKeyLenUnique(phrases: Table, a: nat, b: nat)
    requires IsMaxKeyLen(phrases, a) && IsMaxKeyLen(phrases, b)
    ensures a == b
  {
    if phrases != map[] {
      var ka :| ka in phrases && |ka| == a;
      var kb :| kb in phrases && |kb| == b;
    }
  }

  /** `max(len(k) for k in phrase_map.keys())`, or 0 for an empty phrase table. */
  method MaxPhraseLen(phrases: Table) returns (m: nat)
    ensures IsMaxKeyLen(phrases, m)
  {
    m := 0;
    var rest := phrases.Keys;
    while rest != {}
      invariant rest <= phrases.Keys
      invariant forall k :: k in phrases.Keys - rest ==> |k| <= m
      invariant phrases.Keys - rest == {} ==> m == 0
      invariant phrases.Keys - rest != {} ==> exists k :: k in phrases.Keys - rest && |k| == m
      decreases rest
    {
      var k :| k in rest;
      if |k| > m {
        m := |k|;
      }
      rest := rest - {k};
    }
    if phrases != map[] {
      var k :| k in phrases;
      assert k in phrases.Keys - rest;
    }
  }

  /**
   * The start-up sequence: load `STPhrases.txt` and `STCharacters.txt` into empty tables (a missing
   * file gives an empty table) and derive the phrase bound from the phrase table only.
   */
  method LoadTables(phraseFile: Option<seq<string>>, charFile: Option<seq<string>>) returns (t: Tables)
    ensures t.phrases == (if phraseFile.Some? then LoadLines(map[], phraseFile.value) else map[])
    ensures t.chars == (if charFile.Some? then LoadLines(map[], charFile.value) else map[])
    ensures IsMaxKeyLen(t.phrases, t.maxPhraseLen)
  {
    var phrases, _ := LoadDict(phraseFile, map[]);
    var chars, _ := LoadDict(charFile, map[]);
    var maxLen := MaxPhraseLen(phrases);
    t := Tables(phrases, chars, maxLen);
  }

  // ---------------------------------------------------------------------------------------------
  // Conversion engine (`convert_text`)
  // ---------------------------------------------------------------------------------------------

  /** `min(max_phrase_len, n - i)`: the longest phrase length tried at position `i`. */
  function Window(t: Tables, text: string, i: nat): (w: nat)
    requires i <= |text|
    ensures w <= t.maxPhraseLen && i + w <= |text|
  {
    if t.maxPhraseLen < |text| - i then t.maxPhraseLen else |text| - i
  }

  /** The `l` characters of `text` at `i` form a key of `phrases` (`text[i:i+l] in phrase_map`). */
  predicate PhraseAt(phrases: Table, text: string, i: nat, l: nat)
  {
    i + l <= |text| && text[i..i + l] in phrases
  }

  /** The longest length in `1..len` whose slice at `i` is a phrase key, or 0 when there is none. */
  function LongestPhrase(phrases: Table, text: string, i: nat, len: nat): (r: nat)
    requires i + len <= |text|
    ensures r <= len
    ensures r > 0 ==> PhraseAt(phrases, text, i, r)
    decreases len
  {
    if len == 0 then 0
    else if text[i..i + len] in phrases then len
    else LongestPhrase(phrases, text, i, len - 1)
  }

  /** No length above the result, up to `len`, is a phrase key at `i`. */
  lemma {:induction false} LongestPhraseLongest(phrases: Table, text: string, i: nat, len: nat)
    requires i + len <= |text|
    ensures forall l :: LongestPhrase(phrases, text, i, len) < l <= len ==> !PhraseAt(phrases, text, i, l)
    decreases len
  {
    if len > 0 && text[i..i + len] !in phrases {
      LongestPhraseLongest(phrases, text, i, len - 1);
    }
  }

  /** How a segment was converted, in the order the converter tries the rules. */
  datatype Rule = Phrase | Character | Unchanged

  /** A piece of input `src` starting at index `start`, and the text `out` emitted for it. */
  datatype Segment = Segment(start: nat, src: string, out: string, rule: Rule)

  /** No phrase key of any length in the window starts at `i`. */
  predicate NoPhraseAt(t: Tables, text: string, i: nat)
    requires i <= |text|
  {
    forall l :: 1 <= l <= Window(t, text, i) ==> !PhraseAt(t.phrases, text, i, l)
  }

  /**
   * The declarative meaning of one conversion step at `i`: the segment is the slice of the input at `i`
   * and either is the longest phrase key in the window; or, with no phrase key in the window, is the
   * single character mapped through the character table; or, when that table has no entry either, is
   * the single character copied unchanged.
   */
  predicate Matches(t: Tables, text: string, i: nat, seg: Segment)
  {
    && seg.start == i
    && 1 <= |seg.src| && i + |seg.src| <= |text|
    && seg.src == text[i..i + |seg.src|]
    && match seg.rule
       case Phrase =>
         && |seg.src| <= Window(t, text, i)
         && seg.src in t.phrases && seg.out == t.phrases[seg.src]
         && forall l :: |seg.src| < l <= Window(t, text, i) ==> !PhraseAt(t.phrases, text, i, l)
       case Character =>
         && |seg.src| == 1 && NoPhraseAt(t, text, i)
         && seg.src in t.chars && seg.out == t.chars[seg.src]
       case Unchanged =>
         && |seg.src| == 1 && NoPhraseAt(t, text, i)
         && seg.src !in t.chars && seg.out == seg.src
  }

  /** The segment the converter emits at position `i` (one iteration of the `while` loop). */
  function NextSegment(t: Tables, text: string, i: nat): (seg: Segment)
    requires i < |text|
    ensures seg.start == i && 1 <= |seg.src| && i + |seg.src| <= |text|
  {
    var len := LongestPhrase(t.phrases, text, i, Window(t, text, i));
    if len > 0 then
      Segment(i, text[i..i + len], t.phrases[text[i..i + len]], Phrase)
    else if [text[i]] in t.chars then
      Segment(i, [text[i]], t.chars[[text[i]]], Character)
    else
      Segment(i, [text[i]], [text[i]], Unchanged)
  }

  /** Each emitted segment is the declared conversion step, in the declared order of the rules. */
  lemma NextSegmentMatches(t: Tables, text: string, i: nat)
    requires i < |text|
    ensures Matches(t, text, i, NextSegment(t, text, i))
  {
    LongestPhraseLongest(t.phrases, text, i, Window(t, text, i));
    assert text[i..i + 1] == [text[i]];
  }

  /** At most one segment fits the declarative meaning at any position. */
  lemma MatchesUnique(t: Tables, text: string, i: nat, a: Segment, b: Segment)
    requires Matches(t, text, i, a) && Matches(t, text, i, b)
    ensures a == b
  {
    if a.rule == Phrase && b.rule == Phrase {
      assert PhraseAt(t.phrases, text, i, |a.src|) && PhraseAt(t.phrases, text, i, |b.src|);
    } else if a.rule == Phrase {
      assert PhraseAt(t.phrases, text, i, |a.src|);
    } else if b.rule == Phrase {
      assert PhraseAt(t.phrases, text, i, |b.src|);
    }
  }

  /** The input pieces of a list of segments. */
  function Srcs(segs: seq<Segment>): (r: seq<string>)
    ensures |r| == |segs|
  {
    if segs == [] then [] else [segs[0].src] + Srcs(segs[1..])
  }

  /** The emitted pieces of a list of segments (the `result` list of `convert_text`). */
  function Outs(segs: seq<Segment>): (r: seq<string>)
    ensures |r| == |segs|
  {
    if segs == [] then [] else [segs[0].out] + Outs(segs[1..])
  }

  /** The segments the converter emits from position `i` on, one per loop iteration. */
  function Segments(t: Tables, text: string, i: nat): (segs: seq<Segment>)
    requires i <= |text|
    ensures |segs| <= |text| - i
    decreases |text| - i
  {
    if i == |text| then []
    else
      var seg := NextSegment(t, text, i);
      [seg] + Segments(t, text, i + |seg.src|)
  }

  /**
   * `segs` segments `text[i..]` by the declared rule: the first segment is the declared step at `i`, the
   * rest segments what follows it, and the list ends exactly at the end of the input.
   */
  predicate Tiles(t: Tables, text: string, i: nat, segs: seq<Segment>)
    decreases |segs|
  {
    if segs == [] then i == |text|
    else Matches(t, text, i, segs[0]) && Tiles(t, text, i + |segs[0].src|, segs[1..])
  }

  /** The converter's segments tile the rest of the input by the declared rule. */
  lemma {:induction false} SegmentsTile(t: Tables, text: string, i: nat)
    requires i <= |text|
    ensures Tiles(t, text, i, Segments(t, text, i))
    decreases |text| - i
  {
    if i < |text| {
      var seg := NextSegment(t, text, i);
      NextSegmentMatches(t, text, i);
      SegmentsTile(t, text, i + |seg.src|);
      var segs := Segments(t, text, i);
      assert segs[0] == seg && segs[1..] == Segments(t, text, i + |seg.src|);
    }
  }

  /** A tiling consumes every input character exactly once, in order: its pieces join to the input. */
  lemma {:induction false} TilesConsume(t: Tables, text: string, i: nat, segs: seq<Segment>)
    requires Tiles(t, text, i, segs)
    ensures i <= |text| && Concat(Srcs(segs)) == text[i..]
    decreases |segs|
  {
    if segs != [] {
      var seg := segs[0];
      var next := i + |seg.src|;
      var rest := segs[1..];
      assert seg.src == text[i..next];
      TilesConsume(t, text, next, rest);
      var pieces := Srcs(rest);
      assert Srcs(segs) == [seg.src] + pieces;
      ConcatPrepend(seg.src, pieces);
      assert text[i..] == text[i..next] + text[next..];
    }
  }

  /** Every segment of a tiling is the declared step at its own start, which lies before the end. */
  lemma {:induction false} TilesAt(t: Tables, text: string, i: nat, segs: seq<Segment>, k: nat)
    requires Tiles(t, text, i, segs) && k < |segs|
    ensures Matches(t, text, segs[k].start, segs[k])
    decreases k
  {
    if k > 0 {
      TilesAt(t, text, i + |segs[0].src|, segs[1..], k - 1);
      assert segs[1..][k - 1] == segs[k];
    }
  }

  /** The first segment of any tiling is the one the converter emits. */
  lemma TilesHead(t: Tables, text: string, i: nat, segs: seq<Segment>)
    requires Tiles(t, text, i, segs) && segs != []
    ensures i < |text| && segs[0] == NextSegment(t, text, i)
    ensures Tiles(t, text, i + |segs[0].src|, segs[1..])
  {
    NextSegmentMatches(t, text, i);
    MatchesUnique(t, text, i, segs[0], NextSegment(t, text, i));
  }

  /** The conversion is the only segmentation of the input by the declared rule: greedy and deterministic. */
  lemma {:induction false} TilesUnique(t: Tables, text: string, i: nat, segs: seq<Segment>)
    requires Tiles(t, text, i, segs)
    ensures segs == Segments(t, text, i)
    decreases |segs|
  {
    if segs != [] {
      TilesHead(t, text, i, segs);
      var next := i + |segs[0].src|;
      TilesUnique(t, text, next, segs[1..]);
      SegmentsStep(t, text, i);
      assert segs == [segs[0]] + segs[1..];
    }
  }

  /** `convert_text(text)`: the empty string is returned as it is; otherwise the emitted pieces joined. */
  function Convert(t: Tables, text: string): (r: string)
    ensures text == [] ==> r == []
  {
    if text == [] then text else Concat(Outs(Segments(t, text, 0)))
  }

  /**
   * Longest match wins outright when the bound is the real maximum key length: no phrase key longer
   * than the emitted one starts where a phrase segment starts.
   */
  lemma LongestMatch(t: Tables, text: string, k: nat, l: nat)
    requires IsMaxKeyLen(t.phrases, t.maxPhraseLen)
    requires k < |Segments(t, text, 0)|
    requires Segments(t, text, 0)[k].rule == Phrase
    requires |Segments(t, text, 0)[k].src| < l <= |text| - Segments(t, text, 0)[k].start
    ensures text[Segments(t, text, 0)[k].start..Segments(t, text, 0)[k].start + l] !in t.phrases
  {
    var segs := Segments(t, text, 0);
    SegmentsTile(t, text, 0);
    TilesAt(t, text, 0, segs, k);
    PhraseLongest(t, text, segs[k], l);
  }

  /** A phrase step admits no longer phrase key at its start, within the window or beyond it. */
  lemma PhraseLongest(t: Tables, text: string, seg: Segment, l: nat)
    requires IsMaxKeyLen(t.phrases, t.maxPhraseLen)
    requires Matches(t, text, seg.start, seg) && seg.rule == Phrase
    requires |seg.src| < l <= |text| - seg.start
    ensures text[seg.start..seg.start + l] !in t.phrases
  {
    var key := text[seg.start..seg.start + l];
    if l > t.maxPhraseLen {
      assert |key| == l;
    } else {
      assert l <= Window(t, text, seg.start);
      assert !PhraseAt(t.phrases, text, seg.start, l);
    }
  }

  /** A single-character phrase key takes precedence over the character table. */
  lemma PhraseBeforeCharacter(t: Tables, text: string, i: nat)
    requires i < |text| && t.maxPhraseLen >= 1 && [text[i]] in t.phrases
    ensures NextSegment(t, text, i).rule == Phrase
  {
    assert text[i..i + 1] == [text[i]];
    assert PhraseAt(t.phrases, text, i, 1);
    LongestPhraseLongest(t.phrases, text, i, Window(t, text, i));
  }

  /** What the per-character fallback emits for `c`: its character-table value, or `c` itself. */
  function CharOut(t: Tables, c: char): string
  {
    if [c] in t.chars then t.chars[[c]] else [c]
  }

  /** The emitted pieces of a purely per-character conversion of `text[i..]`. */
  function PerChar(t: Tables, text: string, i: nat): (r: seq<string>)
    requires i <= |text|
    decreases |text| - i
  {
    if i == |text| then [] else [CharOut(t, text[i])] + PerChar(t, text, i + 1)
  }

  /** With a zero phrase bound (an empty phrase table) the conversion works character by character. */
  lemma {:induction false} ZeroBoundPerChar(t: Tables, text: string, i: nat)
    requires t.maxPhraseLen == 0 && i <= |text|
    ensures Outs(Segments(t, text, i)) == PerChar(t, text, i)
    decreases |text| - i
  {
    if i < |text| {
      var seg := NextSegment(t, text, i);
      assert Window(t, text, i) == 0;
      assert seg.src == [text[i]] && seg.out == CharOut(t, text[i]);
      var rest := Segments(t, text, i + 1);
      assert Segments(t, text, i) == [seg] + rest;
      ZeroBoundPerChar(t, text, i + 1);
      assert Outs([seg] + rest) == [seg.out] + Outs(rest);
    }
  }

  /** Neither table has a key that occurs in `text` (phrase keys within the phrase window). */
  predicate NoTableHits(t: Tables, text: string)
  {
    && (forall a, l :: 0 <= a < |text| && 1 <= l <= t.maxPhraseLen ==> !PhraseAt(t.phrases, text, a, l))
    && (forall a :: 0 <= a < |text| ==> [text[a]] !in t.chars)
  }

  lemma {:induction false} NoHitsFrom(t: Tables, text: string, i: nat)
    requires NoTableHits(t, text) && i <= |text|
    ensures Concat(Outs(Segments(t, text, i))) == text[i..]
    decreases |text| - i
  {
    if i < |text| {
      var seg := NextSegment(t, text, i);
      NoHitsStep(t, text, i);
      var rest := Segments(t, text, i + 1);
      calc {
        Concat(Outs(Segments(t, text, i)));
      == { SegmentsStep(t, text, i); }
        Concat(Outs([seg] + rest));
      == { OutsCons(seg, rest); }
        Concat([seg.out] + Outs(rest));
      == { ConcatPrepend(seg.out, Outs(rest)); }
        seg.out + Concat(Outs(rest));
      == { NoHitsFrom(t, text, i + 1); }
        [text[i]] + text[i + 1..];
      ==
        text[i..];
      }
    }
  }

  /** Without table hits, each step copies a single character. */
  lemma NoHitsStep(t: Tables, text: string, i: nat)
    requires NoTableHits(t, text) && i < |text|
    ensures NextSegment(t, text, i).src == [text[i]] && NextSegment(t, text, i).out == [text[i]]
  {
    assert LongestPhrase(t.phrases, text, i, Window(t, text, i)) == 0;
  }

  /** The outputs of a list of segments headed by `seg`. */
  lemma OutsCons(seg: Segment, rest: seq<Segment>)
    ensures Outs([seg] + rest) == [seg.out] + Outs(rest)
  {
    assert ([seg] + rest)[1..] == rest;
  }

  /** Text without dictionary hits (ASCII, digits, untouched scripts) comes out identical. */
  lemma PassThrough(t: Tables, text: string)
    requires NoTableHits(t, text)
    ensures Convert(t, text) == text
  {
    if text != [] {
      NoHitsFrom(t, text, 0);
    }
  }

  /** One iteration of the outer loop: the segments from `i` are the next segment followed by the rest. */
  lemma SegmentsStep(t: Tables, text: string, i: nat)
    requires i < |text|
    ensures Segments(t, text, i) == [NextSegment(t, text, i)] + Segments(t, text, i + |NextSegment(t, text, i).src|)
  {
  }

  /** The outer loop's invariant survives one iteration: the emitted list grows by the next segment's output. */
  lemma OutsAdvance(total: seq<string>, result: seq<string>, seg: Segment, rest: seq<Segment>)
    requires total == result + Outs([seg] + rest)
    ensures total == (result + [seg.out]) + Outs(rest)
  {
    OutsCons(seg, rest);
    assert result + ([seg.out] + Outs(rest)) == (result + [seg.out]) + Outs(rest);
  }

  /** The outer loop's invariant, carried from `i` past the next segment. */
  lemma ConvertStep(t: Tables, text: string, i: nat, result: seq<string>)
    requires i < |text|
    requires Outs(Segments(t, text, 0)) == result + Outs(Segments(t, text, i))
    ensures Outs(Segments(t, text, 0))
            == (result + [NextSegment(t, text, i).out]) + Outs(Segments(t, text, i + |NextSegment(t, text, i).src|))
  {
    var seg := NextSegment(t, text, i);
    SegmentsStep(t, text, i);
    OutsAdvance(Outs(Segments(t, text, 0)), result, seg, Segments(t, text, i + |seg.src|));
  }

  /** A phrase hit of length `len` found by the inner countdown is the next segment. */
  lemma StepPhrase(t: Tables, text: string, i: nat, len: nat)
    requires i < |text| && len > 0 && LongestPhrase(t.phrases, text, i, Window(t, text, i)) == len
    ensures |NextSegment(t, text, i).src| == len && NextSegment(t, text, i).src == text[i..i + len]
    ensures NextSegment(t, text, i).out == t.phrases[text[i..i + len]]
  {
  }

  /** Without a phrase hit the next segment is the single character, mapped or copied. */
  lemma StepFallback(t: Tables, text: string, i: nat)
    requires i < |text| && LongestPhrase(t.phrases, text, i, Window(t, text, i)) == 0
    ensures |NextSegment(t, text, i).src| == 1 && NextSegment(t, text, i).src == [text[i]]
    ensures NextSegment(t, text, i).out == CharOut(t, text[i])
  {
  }

  /**
   * The inner `for length in range(limit, 0, -1)` loop of `convert_text`: the first (so longest) length
   * whose slice at `i` is a phrase key, or 0 when the loop runs out without a hit.
   */
  method LongestAt(t: Tables, text: string, i: nat) returns (length: nat)
    requires i < |text|
    ensures length == LongestPhrase(t.phrases, text, i, Window(t, text, i))
  {
    var n := |text|;
    var limit := if t.maxPhraseLen < n - i then t.maxPhraseLen else n - i;
    length := limit;
    while length > 0
      invariant 0 <= length <= limit == Window(t, text, i)
      invariant LongestPhrase(t.phrases, text, i, limit) == LongestPhrase(t.phrases, text, i, length)
    {
      var sub := text[i..i + length];
      if sub in t.phrases {
        return;
      }
      length := length - 1;
    }
  }

  /** One iteration of the outer loop at `i`: the emitted piece and the number of characters consumed. */
  method ConvertAt(t: Tables, text: string, i: nat) returns (piece: string, length: nat)
    requires i < |text|
    ensures piece == NextSegment(t, text, i).out && length == |NextSegment(t, text, i).src|
  {
    length := LongestAt(t, text, i);
    if length > 0 {
      StepPhrase(t, text, i, length);
      piece := t.phrases[text[i..i + length]];
    } else {
      StepFallback(t, text, i);
      var c := text[i];
      if [c] in t.chars {
        piece := t.chars[[c]];
      } else {
        piece := [c];
      }
      length := 1;
    }
  }

  /**
   * `convert_text` as written: a `while` loop over `i` that takes the longest phrase hit found by the
   * inner countdown, and otherwise falls back to the character table or copies the character.
   */
  method ConvertText(t: Tables, text: string) returns (r: string)
    ensures r == Convert(t, text)
  {
    if text == [] {
      return text;
    }
    var result: seq<string> := [];
    var i := 0;
    var n := |text|;
    while i < n
      invariant 0 <= i <= n
      invariant Outs(Segments(t, text, 0)) == result + Outs(Segments(t, text, i))
      decreases n - i
    {
      ConvertStep(t, text, i, result);
      var piece, length := ConvertAt(t, text, i);
      result := result + [piece];
      i := i + length;
    }
    assert Segments(t, text, i) == [];
    assert result + [] == result;
    r := Concat(result);
  }

  // ---------------------------------------------------------------------------------------------
  // Per-cell gate of the CSV rewrite
  // ---------------------------------------------------------------------------------------------

  /** A character of the CJK Unified Ideographs block, U+4E00..U+9FFF. */
  predicate IsHan(c: char)
  {
    '\U{4E00}' <= c <= '\U{9FFF}'
  }

  /** `contains_chinese`: a search for `[一-鿿]` from the left. */
  function ContainsChinese(s: string): bool
  {
    |s| > 0 && (IsHan(s[0]) || ContainsChinese(s[1..]))
  }

  /** `contains_chinese(s)` holds exactly when some character lies in U+4E00..U+9FFF. */
  lemma {:induction false} ContainsChineseIff(s: string)
    ensures ContainsChinese(s) <==> exists k :: 0 <= k < |s| && IsHan(s[k])
  {
    if |s| > 0 {
      ContainsChineseIff(s[1..]);
      if exists k :: 0 <= k < |s| && IsHan(s[k]) {
        var k :| 0 <= k < |s| && IsHan(s[k]);
        if k > 0 {
          assert s[1..][k - 1] == s[k];
        }
      }
      if exists k :: 0 <= k < |s[1..]| && IsHan(s[1..][k]) {
        var k :| 0 <= k < |s[1..]| && IsHan(s[1..][k]);
        assert s[k + 1] == s[1..][k];
      }
    }
  }

  /** A cell of a data row after the rewrite: converted when it contains a Han character, else unchanged. */
  function RewriteCell(t: Tables, cell: string): string
  {
    if ContainsChinese(cell) then Convert(t, cell) else cell
  }

  /** The inner loop of the rewrite: `new_row = list(row)` with every Chinese-bearing cell converted. */
  method ConvertRow(t: Tables, row: seq<string>) returns (newRow: seq<string>)
    ensures |newRow| == |row|
    ensures forall k :: 0 <= k < |row| && !ContainsChinese(row[k]) ==> newRow[k] == row[k]
    ensures forall k :: 0 <= k < |row| && ContainsChinese(row[k]) ==> newRow[k] == Convert(t, row[k])
  {
    newRow := row;
    for col := 0 to |row|
      invariant |newRow| == |row|
      invariant forall k :: 0 <= k < col ==> newRow[k] == RewriteCell(t, row[k])
      invariant forall k :: col <= k < |row| ==> newRow[k] == row[k]
    {
      if ContainsChinese(row[col]) {
        var converted := ConvertText(t, row[col]);
        newRow := newRow[col := converted];
      }
    }
  }

  /**
   * One CSV file of the rewrite. `written` is what goes to the temporary file and `replaced` says
   * whether that file is swapped in. An empty file gets a single empty row in the temporary file, but
   * the `continue` skips the swap, so the file itself stays as it was. Otherwise the header row is
   * copied unchanged and every data row is rewritten cell by cell.
   */
  method ConvertCsv(t: Tables, rows: seq<seq<string>>) returns (written: seq<seq<string>>, replaced: bool)
    ensures replaced <==> rows != []
    ensures rows == [] ==> written == [[]]
    ensures rows != [] ==> |written| == |rows| && written[0] == rows[0]
    ensures forall j :: 1 <= j < |rows| ==> |written[j]| == |rows[j]|
    ensures forall j, k :: 1 <= j < |rows| && 0 <= k < |rows[j]| ==> written[j][k] == RewriteCell(t, rows[j][k])
  {
    if rows == [] {
      return [[]], false;
    }
    written := [rows[0]];
    for j := 1 to |rows|
      invariant |written| == j && written[0] == rows[0]
      invariant forall j' :: 1 <= j' < j ==> |written[j']| == |rows[j']|
      invariant forall j', k :: 1 <= j' < j && 0 <= k < |rows[j']| ==> written[j'][k] == RewriteCell(t, rows[j'][k])
    {
      var newRow := ConvertRow(t, rows[j]);
      written := written + [newRow];
    }
    replaced := true;
  }
}
