/**
 * The str_to_map test cases. The expected maps are compared without
 * regard to order: the result has the expected number of entries and
 * holds each expected (key, value) pair.
 */
module StringToMapTests {
  import opened Wrappers
  import opened StringToMap

  ghost predicate Yields(s: string, ed: char, kd: char, expected: seq<Entry>) {
    && StrToMap(s, ed, kd).Success?
    && |StrToMap(s, ed, kd).value| == |expected|
    && forall e | e in expected :: e in StrToMap(s, ed, kd).value
  }

  /** The text of distinct-keyed entries needing no escaping parses to them. */
  lemma ParsesTo(s: string, ed: char, kd: char, es: seq<Entry>)
    requires s == Unparse(es, ed, kd)
    requires |es| >= 1
    requires forall i | 0 <= i < |es| :: ed !in es[i].key && kd !in es[i].key
    requires forall i | 0 <= i < |es| && es[i].value.Some? :: ed != kd && ed !in es[i].value.value
    requires Distinct(Keys(es))
    ensures StrToMap(s, ed, kd) == Success(es)
  {
    StrToMapOfUnparse(es, ed, kd);
  }

  lemma ColonAndComma()
    ensures Yields("a:1,b:2,c:3", ',', ':', [Entry("a", Some("1")), Entry("b", Some("2")), Entry("c", Some("3"))])
  {
    var es := [Entry("a", Some("1")), Entry("b", Some("2")), Entry("c", Some("3"))];
    assert Unparse(es, ',', ':') == "a:1,b:2,c:3";
    ParsesTo("a:1,b:2,c:3", ',', ':', es);
  }

  lemma ValueIsNotTrimmed()
    ensures Yields("a: ,b:2", ',', ':', [Entry("a", Some(" ")), Entry("b", Some("2"))])
  {
    var es := [Entry("a", Some(" ")), Entry("b", Some("2"))];
    assert Unparse(es, ',', ':') == "a: ,b:2";
    ParsesTo("a: ,b:2", ',', ':', es);
  }

  lemma EmptyText()
    ensures Yields("", ',', ':', [Entry("", None)])
    ensures Yields("", ',', '=', [Entry("", None)])
  {
    StrToMapEmptyText(',', ':');
    StrToMapEmptyText(',', '=');
  }

  lemma KeyWithoutValue()
    ensures Yields("a", ',', ':', [Entry("a", None)])
  {
    var es := [Entry("a", None)];
    assert Unparse(es, ',', ':') == "a";
    ParsesTo("a", ',', ':', es);
  }

  lemma EqualsSign()
    ensures Yields("a=1,b=2,c=3", ',', '=', [Entry("a", Some("1")), Entry("b", Some("2")), Entry("c", Some("3"))])
  {
    var es := [Entry("a", Some("1")), Entry("b", Some("2")), Entry("c", Some("3"))];
    assert Unparse(es, ',', '=') == "a=1,b=2,c=3";
    ParsesTo("a=1,b=2,c=3", ',', '=', es);
  }

  /** A letter as key-value delimiter: only "c::3" contains it, at its start. */
  lemma LetterDelimiter()
    ensures Yields("a::1,b::2,c::3", ',', 'c', [Entry("", Some("::3")), Entry("a::1", None), Entry("b::2", None)])
  {
    var es := [Entry("a::1", None), Entry("b::2", None), Entry("", Some("::3"))];
    assert Unparse(es, ',', 'c') == "a::1,b::2,c::3";
    ParsesTo("a::1,b::2,c::3", ',', 'c', es);
  }

  lemma UnderscoreEntries()
    ensures Yields("a:1_b:2_c:3", '_', ':', [Entry("a", Some("1")), Entry("b", Some("2")), Entry("c", Some("3"))])
  {
    var es := [Entry("a", Some("1")), Entry("b", Some("2")), Entry("c", Some("3"))];
    assert Unparse(es, '_', ':') == "a:1_b:2_c:3";
    ParsesTo("a:1_b:2_c:3", '_', ':', es);
  }

  /** Equal delimiters: entry splitting takes every occurrence, so no value is set. */
  lemma SameDelimitersComma()
    ensures Yields("a:1,b:2,c:3", ',', ',', [Entry("a:1", None), Entry("b:2", None), Entry("c:3", None)])
  {
    var es := [Entry("a:1", None), Entry("b:2", None), Entry("c:3", None)];
    assert Unparse(es, ',', ',') == "a:1,b:2,c:3";
    ParsesTo("a:1,b:2,c:3", ',', ',', es);
  }

  lemma SameDelimitersUnderscore()
    ensures Yields("a:1_b:2_c:3", '_', '_', [Entry("a:1", None), Entry("b:2", None), Entry("c:3", None)])
  {
    var es := [Entry("a:1", None), Entry("b:2", None), Entry("c:3", None)];
    assert Unparse(es, '_', '_') == "a:1_b:2_c:3";
    ParsesTo("a:1_b:2_c:3", '_', '_', es);
  }

  /** A repeated key fails the whole call, naming the key. */
  lemma DuplicateKey()
    ensures StrToMap("a:1,b:2,a:3", ',', ':') == Failure(DuplicateKeyMessage("a"))
  {
    var es := [Entry("a", Some("1")), Entry("b", Some("2")), Entry("a", Some("3"))];
    assert Unparse(es, ',', ':') == "a:1,b:2,a:3";
    assert Keys(es) == ["a", "b", "a"];
    StrToMapOfUnparseRepeat(es, ',', ':', 2);
  }

  /** The text of that error. */
  lemma DuplicateKeyMessageText()
    ensures DuplicateKeyMessage("a") == "Duplicate keys are not allowed: ('a')."
  {
  }
}
