/**
 * str_to_map(text, pairDelim, keyValueDelim): split the text into entries
 * at every pair delimiter, split each entry at its first key-value
 * delimiter into a key and a value (no delimiter: a null value), and fail
 * when two entries have the same key.
 */
module StringToMap {
  import opened Wrappers

  /** One entry of the resulting map; a missing value is SQL null. */
  datatype Entry = Entry(key: string, value: Option<string>)

  // ---------------------------------------------------------------------
  // Splitting at every occurrence of a delimiter
  // ---------------------------------------------------------------------

  /** The pieces between the occurrences of `d`; empty pieces are kept. */
  function Split(s: string, d: char): (pieces: seq<string>)
    ensures |pieces| >= 1
    ensures forall i | 0 <= i < |pieces| :: d !in pieces[i]
    decreases |s|
  {
    if |s| == 0 then [""]
    else
      var rest := Split(s[1..], d);
      if s[0] == d then [""] + rest
      else [[s[0]] + rest[0]] + rest[1..]
  }

  /** The pieces glued back together with `d` between neighbours. */
  function Join(pieces: seq<string>, d: char): string
    decreases |pieces|
  {
    if |pieces| == 0 then ""
    else if |pieces| == 1 then pieces[0]
    else pieces[0] + [d] + Join(pieces[1..], d)
  }

  /** The number of occurrences of `c` in `s`. */
  function Count(s: string, c: char): nat {
    if |s| == 0 then 0 else (if s[0] == c then 1 else 0) + Count(s[1..], c)
  }

  lemma SplitEmpty(d: char)
    ensures Split("", d) == [""]
  {
  }

  /** Every delimiter starts a new piece. */
  lemma {:induction false} SplitCount(s: string, d: char)
    ensures |Split(s, d)| == Count(s, d) + 1
    decreases |s|
  {
    if |s| > 0 {
      SplitCount(s[1..], d);
    }
  }

  /** Joining the pieces gives the text back. */
  lemma {:induction false} JoinSplit(s: string, d: char)
    ensures Join(Split(s, d), d) == s
    decreases |s|
  {
    if |s| > 0 {
      var rest := Split(s[1..], d);
      JoinSplit(s[1..], d);
      if s[0] == d {
        assert ([""] + rest)[1..] == rest;
      } else if |rest| == 1 {
      } else {
        var p := [[s[0]] + rest[0]] + rest[1..];
        assert p[1..] == rest[1..];
        assert Join(rest, d) == rest[0] + [d] + Join(rest[1..], d);
      }
    }
  }

  lemma {:induction false} SplitWithoutDelimiter(p: string, rest: string, d: char)
    requires d !in p
    ensures Split(p + rest, d) == [p + Split(rest, d)[0]] + Split(rest, d)[1..]
    decreases |p|
  {
    if |p| > 0 {
      assert (p + rest)[1..] == p[1..] + rest;
      SplitWithoutDelimiter(p[1..], rest, d);
      assert [p[0]] + (p[1..] + Split(rest, d)[0]) == p + Split(rest, d)[0];
    } else {
      assert p + rest == rest;
      var r := Split(rest, d);
      assert p + r[0] == r[0];
      assert r == [r[0]] + r[1..];
    }
  }

  /** Splitting a join of delimiter-free pieces gives back the pieces. */
  lemma {:induction false} SplitJoin(pieces: seq<string>, d: char)
    requires |pieces| >= 1
    requires forall i | 0 <= i < |pieces| :: d !in pieces[i]
    ensures Split(Join(pieces, d), d) == pieces
    decreases |pieces|
  {
    if |pieces| == 1 {
      SplitWithoutDelimiter(pieces[0], "", d);
      assert pieces[0] + "" == pieces[0];
    } else {
      var rest := Join(pieces[1..], d);
      SplitJoin(pieces[1..], d);
      assert Join(pieces, d) == pieces[0] + ([d] + rest);
      assert ([d] + rest)[1..] == rest;
      assert Split([d] + rest, d) == [""] + pieces[1..];
      SplitWithoutDelimiter(pieces[0], [d] + rest, d);
      assert pieces[0] + "" == pieces[0];
      assert pieces == [pieces[0]] + pieces[1..];
    }
  }

  // ---------------------------------------------------------------------
  // Splitting one entry at its first key-value delimiter
  // ---------------------------------------------------------------------

  /** The position of the first occurrence of `c`, if any. */
  function IndexOf(s: string, c: char): (r: Option<nat>)
    ensures r.None? <==> c !in s
    ensures r.Some? ==> r.value < |s| && s[r.value] == c && c !in s[..r.value]
    decreases |s|
  {
    if |s| == 0 then None
    else if s[0] == c then Some(0)
    else
      match IndexOf(s[1..], c)
      case None => None
      case Some(i) =>
        assert s[..i + 1] == [s[0]] + s[1..][..i];
        Some(i + 1)
  }

  /**
   * An entry split in two at the first `kd` (a split with limit 2): the key
   * before it and the value, untrimmed, after it. Without `kd` the whole
   * entry is the key and the value is null.
   */
  function SplitEntry(entry: string, kd: char): (e: Entry)
    ensures kd !in e.key
    ensures e.value.None? <==> kd !in entry
    ensures e.value.None? ==> e.key == entry
    ensures e.value.Some? ==> entry == e.key + [kd] + e.value.value
  {
    match IndexOf(entry, kd)
    case None => Entry(entry, None)
    case Some(i) =>
      assert entry == entry[..i] + [kd] + entry[i + 1..];
      Entry(entry[..i], Some(entry[i + 1..]))
  }

  /** The text an entry was parsed from. */
  function EntryText(e: Entry, kd: char): string {
    match e.value
    case None => e.key
    case Some(v) => e.key + [kd] + v
  }

  /** A text with `kd` splits at one place only: before its first `kd`. */
  lemma SplitAtFirstIsUnique(k1: string, v1: string, k2: string, v2: string, kd: char)
    requires kd !in k1 && kd !in k2
    requires k1 + [kd] + v1 == k2 + [kd] + v2
    ensures k1 == k2 && v1 == v2
  {
    var t := k1 + [kd] + v1;
    assert t[|k1|] == kd && t[|k2|] == kd;
    assert forall j | 0 <= j < |k1| :: t[j] == k1[j] != kd;
    assert forall j | 0 <= j < |k2| :: t[j] == k2[j] != kd;
    assert |k1| == |k2|;
    assert k1 == t[..|k1|] && k2 == t[..|k2|];
    assert v1 == t[|k1| + 1..] && v2 == t[|k2| + 1..];
  }

  /** SplitEntry and EntryText are inverse to each other. */
  lemma SplitEntryRoundTrip(entry: string, e: Entry, kd: char)
    ensures EntryText(SplitEntry(entry, kd), kd) == entry
    ensures kd !in e.key ==> SplitEntry(EntryText(e, kd), kd) == e
  {
    if kd !in e.key {
      var e' := SplitEntry(EntryText(e, kd), kd);
      if e.value.Some? {
        assert EntryText(e, kd)[|e.key|] == kd;
        SplitAtFirstIsUnique(e'.key, e'.value.value, e.key, e.value.value, kd);
      }
    }
  }

  // ---------------------------------------------------------------------
  // The whole text
  // ---------------------------------------------------------------------

  /** The entries of the text, one per piece between entry delimiters, in input order. */
  function Parse(s: string, ed: char, kd: char): (es: seq<Entry>)
    ensures |es| == |Split(s, ed)|
    ensures forall i | 0 <= i < |es| :: EntryText(es[i], kd) == Split(s, ed)[i]
    ensures forall i | 0 <= i < |es| ::
      kd !in es[i].key && (es[i].value.None? <==> kd !in Split(s, ed)[i])
  {
    var pieces := Split(s, ed);
    seq(|pieces|, i requires 0 <= i < |pieces| => SplitEntry(pieces[i], kd))
  }

  function Keys(es: seq<Entry>): (ks: seq<string>)
    ensures |ks| == |es| && forall i | 0 <= i < |es| :: ks[i] == es[i].key
  {
    seq(|es|, i requires 0 <= i < |es| => es[i].key)
  }

  ghost predicate Distinct(ks: seq<string>) {
    forall i, j | 0 <= i < j < |ks| :: ks[i] != ks[j]
  }

  /** The first position whose key already occurs before it, if any. */
  function FirstRepeat(ks: seq<string>): (r: Option<nat>)
    ensures r.None? <==> Distinct(ks)
    ensures r.Some? ==> r.value < |ks| && ks[r.value] in ks[..r.value] && Distinct(ks[..r.value])
    decreases |ks|
  {
    if |ks| == 0 then None
    else
      var init := ks[..|ks| - 1];
      match FirstRepeat(init)
      case Some(j) =>
        assert ks[..j] == init[..j];
        Some(j)
      case None =>
        if ks[|ks| - 1] in init then
          Some(|ks| - 1)
        else
          None
  }

  /** FirstRepeat finds the least position that repeats an earlier key. */
  lemma FirstRepeatIsFirst(ks: seq<string>, j: nat)
    requires j < |ks| && ks[j] in ks[..j] && Distinct(ks[..j])
    ensures FirstRepeat(ks) == Some(j)
  {
    var r := FirstRepeat(ks);
    var i :| 0 <= i < j && ks[..j][i] == ks[j];
    assert ks[i] == ks[j];
    assert r.Some?;
    var n := r.value;
    var h :| 0 <= h < n && ks[..n][h] == ks[n];
    assert ks[h] == ks[n];
    assert forall a, b | 0 <= a < b < j :: ks[a] != ks[b] by {
      forall a, b | 0 <= a < b < j ensures ks[a] != ks[b] {
        assert ks[..j][a] != ks[..j][b];
      }
    }
    assert forall a, b | 0 <= a < b < n :: ks[a] != ks[b] by {
      forall a, b | 0 <= a < b < n ensures ks[a] != ks[b] {
        assert ks[..n][a] != ks[..n][b];
      }
    }
  }

  /** The error raised for a repeated key. */
  function DuplicateKeyMessage(key: string): string {
    "Duplicate keys are not allowed: ('" + key + "')."
  }

  /**
   * str_to_map: the entries of the text, or the duplicate-key error naming
   * the key of the first entry that repeats an earlier key.
   */
  function StrToMap(s: string, ed: char, kd: char): (r: Result<seq<Entry>, string>)
    ensures r.Success? <==> Distinct(Keys(Parse(s, ed, kd)))
    ensures r.Success? ==> r.value == Parse(s, ed, kd)
    ensures r.Failure? ==>
      exists i, j | 0 <= i < j < |Parse(s, ed, kd)| ::
        Parse(s, ed, kd)[i].key == Parse(s, ed, kd)[j].key
        && Distinct(Keys(Parse(s, ed, kd))[..j])
        && r.error == DuplicateKeyMessage(Parse(s, ed, kd)[j].key)
  {
    var entries := Parse(s, ed, kd);
    match FirstRepeat(Keys(entries))
    case Some(j) =>
      var ks := Keys(entries);
      var i :| 0 <= i < j && ks[..j][i] == ks[j];
      Failure(DuplicateKeyMessage(entries[j].key))
    case None => Success(entries)
  }

  /** The text of each entry, in order. */
  function Texts(es: seq<Entry>, kd: char): (ts: seq<string>)
    ensures |ts| == |es| && forall i | 0 <= i < |es| :: ts[i] == EntryText(es[i], kd)
    decreases |es|
  {
    if |es| == 0 then [] else [EntryText(es[0], kd)] + Texts(es[1..], kd)
  }

  /** The text the entries were parsed from. */
  function Unparse(es: seq<Entry>, ed: char, kd: char): string {
    Join(Texts(es, kd), ed)
  }

  /** A successful result spells out the input text again. */
  lemma StrToMapRoundTrip(s: string, ed: char, kd: char)
    requires StrToMap(s, ed, kd).Success?
    ensures Unparse(StrToMap(s, ed, kd).value, ed, kd) == s
  {
    var es := Parse(s, ed, kd);
    assert Texts(es, kd) == Split(s, ed);
    JoinSplit(s, ed);
  }

  /** Entries that need no escaping parse back from their text. */
  lemma ParseUnparse(es: seq<Entry>, ed: char, kd: char)
    requires |es| >= 1
    requires forall i | 0 <= i < |es| :: ed !in es[i].key && kd !in es[i].key
    requires forall i | 0 <= i < |es| && es[i].value.Some? :: ed != kd && ed !in es[i].value.value
    ensures Parse(Unparse(es, ed, kd), ed, kd) == es
  {
    var texts := Texts(es, kd);
    forall i | 0 <= i < |texts| ensures ed !in texts[i] {
      if es[i].value.Some? {
        assert texts[i] == es[i].key + [kd] + es[i].value.value;
      }
    }
    SplitJoin(texts, ed);
    forall i | 0 <= i < |es| ensures SplitEntry(texts[i], kd) == es[i] {
      SplitEntryRoundTrip(texts[i], es[i], kd);
    }
  }

  /** Hence distinct-keyed entries are exactly what str_to_map returns for their text. */
  lemma StrToMapOfUnparse(es: seq<Entry>, ed: char, kd: char)
    requires |es| >= 1
    requires forall i | 0 <= i < |es| :: ed !in es[i].key && kd !in es[i].key
    requires forall i | 0 <= i < |es| && es[i].value.Some? :: ed != kd && ed !in es[i].value.value
    requires Distinct(Keys(es))
    ensures StrToMap(Unparse(es, ed, kd), ed, kd) == Success(es)
  {
    ParseUnparse(es, ed, kd);
  }

  /** The error for entries whose key at `j` is the first to repeat an earlier key. */
  lemma StrToMapOfUnparseRepeat(es: seq<Entry>, ed: char, kd: char, j: nat)
    requires |es| >= 1
    requires forall i | 0 <= i < |es| :: ed !in es[i].key && kd !in es[i].key
    requires forall i | 0 <= i < |es| && es[i].value.Some? :: ed != kd && ed !in es[i].value.value
    requires j < |es| && es[j].key in Keys(es)[..j] && Distinct(Keys(es)[..j])
    ensures StrToMap(Unparse(es, ed, kd), ed, kd) == Failure(DuplicateKeyMessage(es[j].key))
  {
    ParseUnparse(es, ed, kd);
    FirstRepeatIsFirst(Keys(es), j);
  }

  /** There is one entry more than there are entry delimiters. */
  lemma StrToMapEntryCount(s: string, ed: char, kd: char)
    requires StrToMap(s, ed, kd).Success?
    ensures |StrToMap(s, ed, kd).value| == Count(s, ed) + 1
  {
    SplitCount(s, ed);
  }

  /** An empty text is one entry with an empty key and a null value. */
  lemma StrToMapEmptyText(ed: char, kd: char)
    ensures StrToMap("", ed, kd) == Success([Entry("", None)])
  {
    assert Parse("", ed, kd) == [Entry("", None)];
  }

  /** With equal delimiters the entry split takes them all: every value is null. */
  lemma StrToMapSameDelimiters(s: string, d: char)
    requires StrToMap(s, d, d).Success?
    ensures forall i | 0 <= i < |StrToMap(s, d, d).value| :: StrToMap(s, d, d).value[i].value.None?
  {
  }
}
