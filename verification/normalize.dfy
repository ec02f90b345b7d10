/** `normalize_text` and `is_similar_content`: typographic punctuation becomes
    ASCII, a period repeated across whitespace becomes one, capital runs are
    closed with a period; and the test that a page repeats the previous one. */
module Normalize {
  import opened Wrappers
  import opened Strings
  import opened Capitals

  // ---------------------------------------------------------------------------
  // The replacement table

  /** A replacement table, in the order its entries are applied. */
  type Table = seq<(string, string)>

  /** The table of the command-line extractor: curly single quotes, low and
      reversed quotes and the prime become "'", the dashes and the minus sign
      '-', the ellipsis "...", the narrow no-break and the no-break space ' ',
      the single angle quotes '<' and '>'. */
  const ScriptTable: Table := [
    ("\U{2018}", "'"), ("\U{2019}", "'"), ("\U{201A}", "'"), ("\U{201B}", "'"),
    ("\U{2014}", "-"), ("\U{2013}", "-"), ("\U{2212}", "-"),
    ("\U{2026}", "..."),
    ("\U{202F}", " "), ("\U{00A0}", " "),
    ("\U{2032}", "'"),
    ("\U{2039}", "<"), ("\U{203A}", ">")
  ]

  /** The table of the web service as its source text reads: the two curly
      quotes at the head of the dictionary lost their curls, so the first
      literal is the triple-quoted key `: "'", ` mapped to "'"; both spaces
      lost their no-break form and map ' ' to itself. */
  const BackendTable: Table := [
    (": \"'\", ", "'"), ("\U{201A}", "'"), ("\U{201B}", "'"),
    ("\U{2014}", "-"), ("\U{2013}", "-"), ("\U{2212}", "-"),
    ("\U{2026}", "..."),
    (" ", " "),
    ("\U{2032}", "'"),
    ("\U{2039}", "<"), ("\U{203A}", ">")
  ]

  /** Every key is non-empty (`str.replace` with an empty key is not used). */
  predicate KeysNonEmpty(table: Table)
  {
    forall i :: 0 <= i < |table| ==> table[i].0 != []
  }

  /** The table's replacements, applied one after the other. */
  function ApplyAll(table: Table, s: string): string
    requires KeysNonEmpty(table)
  {
    if table == [] then s else ApplyAll(table[1..], ReplaceAll(s, table[0].0, table[0].1))
  }

  /** The loop over the table. */
  method ApplyTable(table: Table, text: string) returns (r: string)
    requires KeysNonEmpty(table)
    ensures r == ApplyAll(table, text)
  {
    r := text;
    for i := 0 to |table|
      invariant ApplyAll(table[i..], r) == ApplyAll(table, text)
    {
      assert table[i..][1..] == table[i + 1..];
      r := ReplaceAll(r, table[i].0, table[i].1);
    }
  }

  lemma {:induction false} ReplaceKeepsAbsent(s: string, pat: string, rep: string, c: char)
    requires pat != [] && c !in s && c !in rep
    ensures c !in ReplaceAll(s, pat, rep)
    decreases |s|
  {
    if s != [] {
      if StartsWith(s, pat) {
        ReplaceKeepsAbsent(s[|pat|..], pat, rep, c);
      } else {
        ReplaceKeepsAbsent(s[1..], pat, rep, c);
      }
    }
  }

  /** Replacing a one-character key by a text without it removes the key. */
  lemma {:induction false} ReplaceRemovesKey(s: string, c: char, rep: string)
    requires c !in rep
    ensures c !in ReplaceAll(s, [c], rep)
    decreases |s|
  {
    if s != [] {
      if StartsWith(s, [c]) {
        ReplaceRemovesKey(s[1..], c, rep);
      } else {
        assert s[0] != c;
        ReplaceRemovesKey(s[1..], c, rep);
      }
    }
  }

  lemma {:induction false} ApplyAllKeepsAbsent(table: Table, s: string, c: char)
    requires KeysNonEmpty(table) && c !in s
    requires forall i :: 0 <= i < |table| ==> c !in table[i].1
    ensures c !in ApplyAll(table, s)
  {
    if table != [] {
      ReplaceKeepsAbsent(s, table[0].0, table[0].1, c);
      ApplyAllKeepsAbsent(table[1..], ReplaceAll(s, table[0].0, table[0].1), c);
    }
  }

  /** A table whose keys are single non-ASCII characters and whose values are
      ASCII, so that no value brings a key back. */
  predicate AsciiOut(table: Table)
  {
    && (forall i :: 0 <= i < |table| ==> |table[i].0| == 1 && table[i].0[0] >= '\U{80}')
    && (forall i, k :: 0 <= i < |table| && 0 <= k < |table[i].1| ==> table[i].1[k] < '\U{80}')
  }

  /** After such a table, none of its keys is left in the text. */
  lemma {:induction false} ApplyAllRemovesKeys(table: Table, s: string, k: nat)
    requires AsciiOut(table) && k < |table|
    ensures KeysNonEmpty(table) && table[k].0[0] !in ApplyAll(table, s)
  {
    var s' := ReplaceAll(s, table[0].0, table[0].1);
    var c := table[k].0[0];
    forall i | 0 <= i < |table| ensures c !in table[i].1 {
      assert forall j :: 0 <= j < |table[i].1| ==> table[i].1[j] != c;
    }
    if k == 0 {
      assert table[0].0 == [c];
      ReplaceRemovesKey(s, c, table[0].1);
      ApplyAllKeepsAbsent(table[1..], s', c);
    } else {
      ApplyAllRemovesKeys(table[1..], s', k - 1);
    }
  }

  /** The command-line extractor's table leaves no typographic quote, dash,
      ellipsis or special space behind. */
  lemma ScriptTableCleans(s: string, c: char)
    requires exists i :: 0 <= i < |ScriptTable| && ScriptTable[i].0 == [c]
    ensures KeysNonEmpty(ScriptTable) && c !in ApplyAll(ScriptTable, s)
  {
    var i :| 0 <= i < |ScriptTable| && ScriptTable[i].0 == [c];
    assert AsciiOut(ScriptTable);
    ApplyAllRemovesKeys(ScriptTable, s, i);
  }

  /** A table none of whose keys occurs in the text leaves it as it is. */
  lemma {:induction false} ApplyAllUntouched(table: Table, s: string)
    requires KeysNonEmpty(table)
    requires forall i :: 0 <= i < |table| ==> !Contains(s, table[i].0)
    ensures ApplyAll(table, s) == s
  {
    if table != [] {
      ReplaceAbsent(s, table[0].0, table[0].1);
      ApplyAllUntouched(table[1..], s);
    }
  }

  /** What a one-character text contains. */
  lemma OneCharContains(c: char, p: string)
    requires Contains([c], p)
    ensures p == [] || p == [c]
  {
    var k: nat :| k <= 1 && OccursAt([c], p, k);
  }

  lemma UntouchedByTable(table: Table, c: char)
    requires KeysNonEmpty(table)
    requires forall i :: 0 <= i < |table| ==> table[i].0 != [c]
    ensures ApplyAll(table, [c]) == [c]
  {
    forall i | 0 <= i < |table| ensures !Contains([c], table[i].0) {
      if Contains([c], table[i].0) {
        OneCharContains(c, table[i].0);
      }
    }
    ApplyAllUntouched(table, [c]);
  }

  /** The web service's table leaves the right single quote alone. */
  lemma BackendKeepsCurlyQuote()
    ensures KeysNonEmpty(BackendTable)
    ensures ApplyAll(BackendTable, "\U{2019}") == "\U{2019}"
  {
    UntouchedByTable(BackendTable, '\U{2019}');
  }

  /** The command-line extractor's table turns the right single quote into "'". */
  lemma ScriptStraightensCurlyQuote()
    ensures KeysNonEmpty(ScriptTable)
    ensures ApplyAll(ScriptTable, "\U{2019}") == "'"
  {
    var rest := ScriptTable[2..];
    assert ReplaceAll("\U{2019}", "\U{2018}", "'") == "\U{2019}";
    assert ReplaceAll("\U{2019}", "\U{2019}", "'") == "'";
    assert ScriptTable[1..][1..] == rest;
    UntouchedByTable(rest, '\'');
  }

  /** The double quotes left as comments in the command-line extractor's
      table: the curly, low and reversed double quotes, the double prime and
      the angle quotes. */
  const DoubleQuotes: string := "\U{201C}\U{201D}\U{201E}\U{201F}\U{2033}\U{00AB}\U{00BB}"

  /** The command-line extractor's table leaves each of them alone. */
  lemma ScriptKeepsDoubleQuotes()
    ensures KeysNonEmpty(ScriptTable)
    ensures forall c :: c in DoubleQuotes ==> ApplyAll(ScriptTable, [c]) == [c]
  {
    forall c | c in DoubleQuotes ensures ApplyAll(ScriptTable, [c]) == [c] {
      UntouchedByTable(ScriptTable, c);
    }
  }

  // ---------------------------------------------------------------------------
  // Repeated periods

  /** `\.\s+\.` at the start of `t`: where the match ends, if it matches. */
  function DotGap(t: string): (r: Option<nat>)
    ensures r.Some? ==> 3 <= r.value <= |t| && t[0] == '.' && t[r.value - 1] == '.'
    ensures r.Some? ==> forall i :: 1 <= i < r.value - 1 ==> IsSpace(t[i])
    ensures forall j :: 1 < j < |t| && t[0] == '.' && t[j] == '.' && (forall i :: 1 <= i < j ==> IsSpace(t[i])) ==>
      r == Some(j + 1)
  {
    if t != [] && t[0] == '.' then
      LeadingAreSpaces(t[1..]);
      var k := 1 + LeadingSpaces(t[1..]);
      if k > 1 && k < |t| && t[k] == '.' then Some(k + 1) else None
    else None
  }

  /** `re.sub(r'\.\s+\.', '.', t)`: one left-to-right pass. */
  function CollapseDots(t: string): (r: string)
    ensures |r| <= |t|
    decreases |t|
  {
    if t == [] then []
    else match DotGap(t)
      case Some(e) => "." + CollapseDots(t[e..])
      case None => [t[0]] + CollapseDots(t[1..])
  }

  lemma {:induction false} VisibleDotsAndSpaces(s: string)
    requires forall i :: 0 <= i < |s| ==> s[i] == '.' || IsSpace(s[i])
    ensures Visible(s) == []
  {
    if s != [] {
      VisibleDotsAndSpaces(s[1..]);
    }
  }

  lemma DotGapInvisible(t: string)
    requires DotGap(t).Some?
    ensures Visible(t[..DotGap(t).value]) == []
  {
    var e := DotGap(t).value;
    var u := t[1..];
    LeadingAreSpaces(u);
    forall i | 0 <= i < e ensures t[i] == '.' || IsSpace(t[i]) {
      if 0 < i < e - 1 {
        assert t[i] == u[i - 1];
      }
    }
    VisibleDotsAndSpaces(t[..e]);
  }

  /** Collapsing periods removes only periods and whitespace. */
  lemma {:induction false} CollapseDotsVisible(t: string)
    ensures Visible(CollapseDots(t)) == Visible(t)
    decreases |t|
  {
    if t != [] {
      match DotGap(t)
      case Some(e) =>
        CollapseDotsVisible(t[e..]);
        DotGapInvisible(t);
        VisibleConcat(".", CollapseDots(t[e..]));
        assert t == t[..e] + t[e..];
        VisibleConcat(t[..e], t[e..]);
      case None =>
        CollapseDotsVisible(t[1..]);
        VisibleConcat([t[0]], CollapseDots(t[1..]));
        assert t == [t[0]] + t[1..];
        VisibleConcat([t[0]], t[1..]);
    }
  }

  /** Text without a period is left as it is. */
  lemma {:induction false} CollapseDotsNoDot(t: string)
    requires '.' !in t
    ensures CollapseDots(t) == t
    decreases |t|
  {
    if t != [] {
      assert t[0] in t;
      CollapseDotsNoDot(t[1..]);
    }
  }

  // ---------------------------------------------------------------------------
  // normalize_text

  /** `normalize_text` with the replacement table `table`. */
  function Normalized(table: Table, text: string): string
    requires KeysNonEmpty(table)
  {
    RemoveCapital(CollapseDots(ApplyAll(table, text)), 4)
  }

  method NormalizeText(table: Table, text: string) returns (r: string)
    requires KeysNonEmpty(table)
    ensures r == Normalized(table, text)
  {
    r := ApplyTable(table, text);
    r := CollapseDots(r);
    r := RemoveCapitalLoop(r, 4);
  }

  /** After the table, normalizing only adds and removes whitespace and periods. */
  lemma NormalizedVisible(table: Table, text: string)
    requires KeysNonEmpty(table)
    ensures Visible(Normalized(table, text)) == Visible(ApplyAll(table, text))
  {
    CollapseDotsVisible(ApplyAll(table, text));
    RemoveCapitalVisible(CollapseDots(ApplyAll(table, text)), 4);
  }

  // ---------------------------------------------------------------------------
  // is_similar_content

  /** `is_similar_content(prev, current)` with its default threshold 1: both
      non-empty, the shorter at least 80% as long as the longer, and equal up
      to whitespace at either end. */
  predicate IsSimilarContent(prev: string, current: string)
  {
    && prev != [] && current != []
    && 5 * Min(|prev|, |current|) >= 4 * Max(|prev|, |current|)
    && Strip(prev) == Strip(current)
  }

  function Min(a: nat, b: nat): nat { if a <= b then a else b }
  function Max(a: nat, b: nat): nat { if a <= b then b else a }

  lemma SimilarSymmetric(a: string, b: string)
    ensures IsSimilarContent(a, b) <==> IsSimilarContent(b, a)
  {
  }

  /** A non-empty page is similar to itself. */
  lemma SimilarReflexive(a: string)
    requires a != []
    ensures IsSimilarContent(a, a)
  {
  }

  /** Similar pages differ at most in whitespace at either end, and so in
      length by at most a quarter of the shorter one. */
  lemma SimilarMeans(a: string, b: string)
    requires IsSimilarContent(a, b)
    ensures Strip(a) == Strip(b)
    ensures 4 * |a| <= 5 * |b| && 4 * |b| <= 5 * |a|
  {
  }

  /** Pages that differ after stripping are never similar, whatever their length. */
  lemma DifferentNotSimilar(a: string, b: string)
    requires Strip(a) != Strip(b)
    ensures !IsSimilarContent(a, b)
  {
  }
}
