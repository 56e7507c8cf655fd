/**
 * `getTuple`: the SQL tuple literal `("a","b",...)` that the converter
 * splices into its `IN` / `NOT IN` filters, and a parser for it that
 * shows the literal determines the list it was built from.
 */
module SqlTuple {
  import opened Common

  function Quoted(e: string): string
  {
    "\"" + e + "\""
  }

  /** The quoted elements separated by commas, without the parentheses. */
  function QuotedList(es: seq<string>): (r: string)
    ensures r == [] <==> es == []
  {
    if es == [] then ""
    else if |es| == 1 then Quoted(es[0])
    else QuotedList(es[..|es| - 1]) + "," + Quoted(es[|es| - 1])
  }

  function TupleLiteral(es: seq<string>): string
  {
    "(" + QuotedList(es) + ")"
  }

  /** The loop of `getTuple`: a comma goes in front of every element but the first. */
  method GetTuple(elements: seq<string>) returns (t: string)
    ensures t == TupleLiteral(elements)
  {
    t := "(";
    for i := 0 to |elements|
      invariant t == "(" + QuotedList(elements[..i])
    {
      // the string differs from "(" exactly when an element was already added
      if t != "(" {
        t := t + ",";
      }
      t := t + "\"" + elements[i] + "\"";
      assert elements[..i + 1][..i] == elements[..i];
    }
    assert elements[..|elements|] == elements;
    t := t + ")";
  }

  /** The filter on item types spliced into the item queries. */
  lemma ExcludedTypeTuple()
    ensures TupleLiteral(ExcludedTypes) == "(\"note\",\"attachment\")"
  {
    assert ExcludedTypes[..1] == ["note"];
  }

  /** An empty list gives "()". */
  lemma EmptyTuple()
    ensures TupleLiteral([]) == "()"
  {
  }

  /** Elements without commas: the literal holds exactly one comma fewer than there are elements. */
  lemma {:induction false} CommaCount(es: seq<string>)
    requires forall i :: 0 <= i < |es| ==> ',' !in es[i]
    ensures CountChar(TupleLiteral(es), ',') == if es == [] then 0 else |es| - 1
  {
    QuotedListCommas(es);
    CountCharAppend("(", QuotedList(es), ',');
    CountCharAppend("(" + QuotedList(es), ")", ',');
  }

  lemma {:induction false} QuotedListCommas(es: seq<string>)
    requires forall i :: 0 <= i < |es| ==> ',' !in es[i]
    ensures CountChar(QuotedList(es), ',') == if es == [] then 0 else |es| - 1
    decreases |es|
  {
    if es == [] {
    } else {
      var e := es[|es| - 1];
      CountCharAppend("\"", e, ',');
      CountCharAppend("\"" + e, "\"", ',');
      if |es| > 1 {
        var init := es[..|es| - 1];
        QuotedListCommas(init);
        CountCharAppend(QuotedList(init), ",", ',');
        CountCharAppend(QuotedList(init) + ",", Quoted(e), ',');
      }
    }
  }

  /** Index of the last '"' strictly before position `end`, if any. */
  function LastQuote(s: string, end: nat): (r: Option<nat>)
    requires end <= |s|
    ensures r.Some? ==> r.value < end && s[r.value] == '"'
    ensures r.Some? ==> forall i :: r.value < i < end ==> s[i] != '"'
    ensures r.None? ==> forall i :: 0 <= i < end ==> s[i] != '"'
  {
    if end == 0 then None
    else if s[end - 1] == '"' then Some(end - 1)
    else LastQuote(s, end - 1)
  }

  /** Splits `s` into what stands before its last quoted element, and that element. */
  function SplitLast(s: string): Option<(string, string)>
  {
    if s == [] || s[|s| - 1] != '"' then None
    else match LastQuote(s, |s| - 1)
      case None => None
      case Some(j) => Some((s[..j], s[j + 1..|s| - 1]))
  }

  /** Reads back the comma-separated quoted elements, right to left. */
  function ParseList(s: string): Option<seq<string>>
    decreases |s|
  {
    if s == [] then Some([])
    else match SplitLast(s)
      case None => None
      case Some((rest, e)) =>
        if rest == [] then Some([e])
        else if |rest| >= 2 && rest[|rest| - 1] == ',' then
          match ParseList(rest[..|rest| - 1])
          case Some(init) => if init == [] then None else Some(init + [e])
          case None => None
        else None
  }

  /** Reads a tuple literal back into its elements. */
  function ParseTuple(s: string): Option<seq<string>>
  {
    if |s| >= 2 && s[0] == '(' && s[|s| - 1] == ')' then ParseList(s[1..|s| - 1]) else None
  }

  /** Round trip: elements without '"' are recovered from the literal that `getTuple` builds. */
  lemma TupleRoundTrip(es: seq<string>)
    requires forall i :: 0 <= i < |es| ==> '"' !in es[i]
    ensures ParseTuple(TupleLiteral(es)) == Some(es)
  {
    var t := TupleLiteral(es);
    assert t[1..|t| - 1] == QuotedList(es);
    QuotedListRoundTrip(es);
  }

  lemma {:induction false} QuotedListRoundTrip(es: seq<string>)
    requires forall i :: 0 <= i < |es| ==> '"' !in es[i]
    ensures ParseList(QuotedList(es)) == Some(es)
    decreases |es|
  {
    if es != [] {
      var init, e := es[..|es| - 1], es[|es| - 1];
      assert es == init + [e];
      if init == [] {
        ParseSingle(e);
        assert QuotedList([e]) == Quoted(e);
      } else {
        QuotedListRoundTrip(init);
        QuotedListSnoc(init, e);
      }
    }
  }

  /** A list that parses back keeps doing so with one more element. */
  lemma QuotedListSnoc(init: seq<string>, e: string)
    requires init != [] && '"' !in e
    requires ParseList(QuotedList(init)) == Some(init)
    ensures ParseList(QuotedList(init + [e])) == Some(init + [e])
  {
    var es := init + [e];
    assert es[..|es| - 1] == init;
    assert QuotedList(es) == QuotedList(init) + "," + Quoted(e);
    ParseListSnoc(QuotedList(init), e);
  }

  /** A single quoted element parses back to itself. */
  lemma ParseSingle(e: string)
    requires '"' !in e
    ensures ParseList(Quoted(e)) == Some([e])
  {
    SplitLastQuoted("", e);
    assert "" + Quoted(e) == Quoted(e);
  }

  /** One more quoted element after a comma extends a non-empty parsed list by that element. */
  lemma ParseListSnoc(prefix: string, e: string)
    requires prefix != [] && '"' !in e
    ensures ParseList(prefix + "," + Quoted(e))
         == match ParseList(prefix)
            case Some(init) => if init == [] then None else Some(init + [e])
            case None => None
  {
    var rest := prefix + ",";
    SplitLastQuoted(rest, e);
    assert rest[..|rest| - 1] == prefix;
  }

  /** The last quoted element of a string is found as long as it holds no '"'. */
  lemma SplitLastQuoted(prefix: string, e: string)
    requires '"' !in e
    ensures SplitLast(prefix + Quoted(e)) == Some((prefix, e))
  {
    var s := prefix + Quoted(e);
    var j := |prefix|;
    forall i | j < i < |s| - 1 ensures s[i] != '"' {
      assert s[i] == e[i - j - 1];
    }
    LastQuoteSkips(s, j, |s| - 1);
    assert s[j + 1..|s| - 1] == e;
    assert s[..j] == prefix;
  }

  lemma {:induction false} LastQuoteSkips(s: string, j: nat, end: nat)
    requires j < end <= |s| && s[j] == '"'
    requires forall i :: j < i < end ==> s[i] != '"'
    ensures LastQuote(s, end) == Some(j)
    decreases end
  {
    if end - 1 != j {
      LastQuoteSkips(s, j, end - 1);
    }
  }
}
