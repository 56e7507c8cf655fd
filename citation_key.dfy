/**
 * The citation-key override: `re.search(r'.*Citation Key: (\w+)', extra)`
 * on an item's "extra" field. The search is modelled the way the regular
 * expression engine runs it: the leftmost start position at which the
 * pattern matches wins, and from that start the greedy `.*` (which stops
 * at a newline) reaches the last marker of the line; `\w+` then takes the
 * longest run of word characters.
 */
module CitationKey {
  import opened Common

  const Marker: string := "Citation Key: "

  /** `\w` on ASCII: letters, digits and '_'. */
  predicate IsWordChar(c: char)
  {
    ('a' <= c <= 'z') || ('A' <= c <= 'Z') || ('0' <= c <= '9') || c == '_'
  }

  /** The marker starts at `p` and is followed by at least one word character. */
  predicate Occurs(s: string, p: nat)
  {
    p + |Marker| + 1 <= |s| && s[p..p + |Marker|] == Marker && IsWordChar(s[p + |Marker|])
  }

  predicate NoNewline(s: string, a: nat, b: nat)
    requires a <= b <= |s|
  {
    forall i :: a <= i < b ==> s[i] != '\n'
  }

  /** An occurrence is one marker plus one word character, none of which is a newline. */
  lemma OccursShape(s: string, p: nat)
    requires Occurs(s, p)
    ensures s[p] == 'C'
    ensures NoNewline(s, p, p + |Marker| + 1)
  {
    forall i | p <= i < p + |Marker| ensures s[i] != '\n' {
      assert s[i] == s[p..p + |Marker|][i - p] == Marker[i - p];
    }
    assert s[p] == s[p..p + |Marker|][0];
  }

  /** `(\w+)`: the longest run of word characters starting at `i`. */
  function WordRun(s: string, i: nat): (w: string)
    requires i <= |s|
    ensures i + |w| <= |s| && s[i..i + |w|] == w
    ensures forall k :: 0 <= k < |w| ==> IsWordChar(w[k])
    ensures i + |w| == |s| || !IsWordChar(s[i + |w|])
    decreases |s| - i
  {
    if i < |s| && IsWordChar(s[i]) then [s[i]] + WordRun(s, i + 1) else []
  }

  /** Where the line holding position `q` ends: the first newline at or after `q`, or the end of `s`. */
  function LineEnd(s: string, q: nat): (e: nat)
    requires q <= |s|
    ensures q <= e <= |s| && (e == |s| || s[e] == '\n')
    ensures NoNewline(s, q, e)
    decreases |s| - q
  {
    if q == |s| || s[q] == '\n' then q else LineEnd(s, q + 1)
  }

  /** Greedy `.*` from `q` on a line ending at `e`: the last occurrence in `[q, e)`. */
  function LastOccurrence(s: string, q: nat, e: nat): (r: Option<nat>)
    requires q <= e <= |s|
    ensures r.Some? ==> q <= r.value < e && Occurs(s, r.value)
    ensures r.Some? ==> forall p :: r.value < p < e ==> !Occurs(s, p)
    ensures r.None? ==> forall p :: q <= p < e ==> !Occurs(s, p)
    decreases e
  {
    if e <= q then None
    else if Occurs(s, e - 1) then Some(e - 1)
    else LastOccurrence(s, q, e - 1)
  }

  /**
   * `re.search`: tries start positions `q, q + 1, ..., |s|` in turn and
   * answers with the position of the marker of the first match.
   */
  function SearchFrom(s: string, q: nat): (r: Option<nat>)
    requires q <= |s|
    ensures r.Some? ==> q <= r.value && Occurs(s, r.value)
    decreases |s| - q
  {
    match LastOccurrence(s, q, LineEnd(s, q))
    case Some(p) => Some(p)
    case None => if q == |s| then None else SearchFrom(s, q + 1)
  }

  /**
   * `ref` in `run`: the key after the marker when `extra` is present,
   * non-empty and matches; otherwise the item key.
   */
  function CitationRef(extra: Option<string>, itemKey: string): (ref: string)
    ensures ref == itemKey || (ref != [] && forall k :: 0 <= k < |ref| ==> IsWordChar(ref[k]))
  {
    if extra.Some? && extra.value != "" then
      match SearchFrom(extra.value, 0)
      case Some(p) => WordRun(extra.value, p + |Marker|)
      case None => itemKey
    else itemKey
  }

  /**
   * What the search finds, stated without the search: nothing exactly when
   * there is no occurrence; otherwise an occurrence on the first line that
   * has one, and the last occurrence of that line.
   */
  lemma {:induction false} SearchFromSpec(s: string, q: nat)
    requires q <= |s|
    ensures SearchFrom(s, q).None? <==> forall p: nat :: q <= p ==> !Occurs(s, p)
    ensures SearchFrom(s, q).Some? ==> FirstLineLast(s, q, SearchFrom(s, q).value)
    decreases |s| - q
  {
    var e := LineEnd(s, q);
    match LastOccurrence(s, q, e)
    case Some(p) =>
      LastOfLine(s, q, e, p);
    case None =>
      NoneAtStart(s, q, e);
      if q < |s| {
        SearchFromSpec(s, q + 1);
        if SearchFrom(s, q + 1).Some? {
          var p := SearchFrom(s, q + 1).value;
          assert FirstLineLast(s, q + 1, p);
        }
      }
  }

  /**
   * `p` is an occurrence at or after `q`; every occurrence between `q` and
   * `p` lies on `p`'s line, and no later occurrence does.
   */
  ghost predicate FirstLineLast(s: string, q: nat, p: nat)
  {
    && q <= p < |s| && Occurs(s, p)
    && (forall p': nat :: q <= p' < p && Occurs(s, p') ==> NoNewline(s, p', p))
    && (forall p': nat :: p < p' <= |s| && Occurs(s, p') ==> !NoNewline(s, p, p'))
  }

  /** The last occurrence before the end of `q`'s line is the one greedy `.*` stops at. */
  lemma LastOfLine(s: string, q: nat, e: nat, p: nat)
    requires q <= e <= |s| && e == LineEnd(s, q)
    requires LastOccurrence(s, q, e) == Some(p)
    ensures FirstLineLast(s, q, p)
  {
    forall p': nat | p < p' <= |s| && Occurs(s, p') ensures !NoNewline(s, p, p') {
      assert e < p';
      assert s[e] == '\n';
    }
  }

  /** With no occurrence on the rest of `q`'s line, `q` itself is no occurrence. */
  lemma NoneAtStart(s: string, q: nat, e: nat)
    requires q <= e <= |s| && e == LineEnd(s, q)
    requires LastOccurrence(s, q, e).None?
    ensures !Occurs(s, q)
  {
    if q < e {
    } else if q < |s| {
      assert s[q] == '\n';
      if Occurs(s, q) {
        OccursShape(s, q);
      }
    }
  }

  /**
   * The reference taken from a non-empty `extra` is the word run after the
   * marker at `p`, for the one `p` that is an occurrence, has only
   * occurrences on its own line before it, and no later occurrence on its
   * line.
   */
  lemma CitationRefFound(extra: string, itemKey: string, p: nat)
    requires extra != ""
    requires Occurs(extra, p)
    requires forall p': nat :: p' < p && Occurs(extra, p') ==> NoNewline(extra, p', p)
    requires forall p': nat :: p < p' <= |extra| && Occurs(extra, p') ==> !NoNewline(extra, p, p')
    ensures CitationRef(Some(extra), itemKey) == WordRun(extra, p + |Marker|)
  {
    SearchFromSpec(extra, 0);
    var found := SearchFrom(extra, 0).value;
    assert FirstLineLast(extra, 0, found);
    // an earlier find would share p's line, yet have no later occurrence on its line;
    // a later find would have p on its line, yet p has no later occurrence on its line
    assert Occurs(extra, found);
    assert !(found < p);
    assert !(p < found);
  }

  /** Without any occurrence, or without a non-empty `extra`, the reference is the item key. */
  lemma CitationRefDefault(extra: Option<string>, itemKey: string)
    requires extra.Some? && extra.value != "" ==> forall p: nat :: !Occurs(extra.value, p)
    ensures CitationRef(extra, itemKey) == itemKey
  {
    if extra.Some? && extra.value != "" {
      SearchFromSpec(extra.value, 0);
    }
  }

  lemma NotOccursAcrossNewline(s: string, p: nat, i: nat)
    requires p <= i < p + |Marker| + 1 && i < |s| && s[i] == '\n'
    ensures !Occurs(s, p)
  {
    if Occurs(s, p) {
      OccursShape(s, p);
    }
  }

  lemma NotOccursWithoutC(s: string, p: nat)
    requires p < |s| && s[p] != 'C'
    ensures !Occurs(s, p)
  {
    if Occurs(s, p) {
      OccursShape(s, p);
    }
  }

  predicate AllWordChars(t: string)
  {
    t == [] || (IsWordChar(t[0]) && AllWordChars(t[1..]))
  }

  /** A tail made of word characters only is taken whole. */
  lemma {:induction false} WordRunToEnd(s: string, i: nat)
    requires i <= |s| && AllWordChars(s[i..])
    ensures WordRun(s, i) == s[i..]
    decreases |s| - i
  {
    if i < |s| {
      assert s[i..][1..] == s[i + 1..];
      WordRunToEnd(s, i + 1);
    }
  }

  /** An "extra" field whose citation key is on its second line: a first line without a key, then the key line. */
  function ExampleExtra(): string
  {
    "arXiv:1234 [cs]\n" + Marker + "smith2020"
  }

  lemma ExampleShape()
    ensures ExampleExtra() == "arXiv:1234 [cs]\nCitation Key: smith2020"
    ensures |ExampleExtra()| == 39
    ensures ExampleExtra()[0] == 'a' && ExampleExtra()[15] == '\n'
    ensures ExampleExtra()[16..30] == Marker
    ensures ExampleExtra()[30..] == "smith2020"
  {
  }

  lemma ExampleKeyIsWord()
    ensures AllWordChars(ExampleExtra()[30..])
  {
    ExampleShape();
    assert AllWordChars("smith2020");
  }

  lemma ExampleOnlyOccurrence(p': nat)
    requires p' != 16
    ensures !Occurs(ExampleExtra(), p')
  {
    var s := ExampleExtra();
    ExampleShape();
    if p' == 0 {
      NotOccursWithoutC(s, 0);
    } else if p' < 16 {
      NotOccursAcrossNewline(s, p', 15);
    } else if p' <= 24 {
      assert s[p'] == s[16..30][p' - 16];
      assert s[p'] != 'C' by {
        if p' == 17 {} else if p' == 18 {} else if p' == 19 {} else if p' == 20 {}
        else if p' == 21 {} else if p' == 22 {} else if p' == 23 {} else {}
      }
      NotOccursWithoutC(s, p');
    }
  }

  /** A key on the second line of `extra`, after a line without one, overrides the item key. */
  lemma SecondLineExample()
    ensures ExampleExtra() == "arXiv:1234 [cs]\nCitation Key: smith2020"
    ensures CitationRef(Some(ExampleExtra()), "ITEMKEY1") == "smith2020"
  {
    var s := ExampleExtra();
    ExampleShape();
    assert Occurs(s, 16);
    forall p': nat | p' != 16 ensures !Occurs(s, p') {
      ExampleOnlyOccurrence(p');
    }
    CitationRefFound(s, "ITEMKEY1", 16);
    ExampleKeyIsWord();
    WordRunToEnd(s, 30);
  }
}
