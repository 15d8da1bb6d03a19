/**
  Model of src/dlfx/dicom.py: `flatten_dicom_dataset`, which walks a
  DICOM dataset and its nested sequences into a flat dictionary keyed by
  path-like names such as `ReferencedImageSequence[0].ReferencedSOPClassUID`,
  and `extract_index`, which reads back the first `[digits]` of such a key.

  The dataset library is abstract here: a dataset is the sequence of its
  elements in iteration order, an element carries a tag, a keyword (empty
  when the dictionary does not know the tag) and either a plain value or,
  for value representation SQ, a sequence of nested datasets.
*/
module Dicom {
  import opened Results

  type uint16 = x: int | 0 <= x < 0x1_0000

  /** A DICOM attribute tag (group, element). */
  datatype Tag = Tag(group: uint16, elem: uint16)

  /** The tag of Pixel Data, (7FE0,0010). */
  const PixelData: Tag := Tag(0x7FE0, 0x0010)

  /** The content of an element: a plain value, or the items of an SQ element. */
  datatype Content<V> = Value(value: V) | Sequence(items: seq<Dataset<V>>)

  /** A dataset: its elements in iteration order. */
  datatype Dataset<V> = Dataset(elements: seq<Element<V>>)

  datatype Element<V> = Element(tag: Tag, keyword: string, content: Content<V>)

  /* ---------------------------------------------------------------
     Text helpers
     --------------------------------------------------------------- */

  predicate IsDigit(c: char) {
    '0' <= c <= '9'
  }

  predicate AllDigits(s: string) {
    forall k :: 0 <= k < |s| ==> IsDigit(s[k])
  }

  /** `s` contains neither `[` nor `]`. */
  predicate BracketFree(s: string) {
    forall k :: 0 <= k < |s| ==> s[k] != '[' && s[k] != ']'
  }

  function HexDigit(d: nat): (c: char)
    requires d < 16
    ensures c != '[' && c != ']'
  {
    "0123456789ABCDEF"[d]
  }

  /** `f"{n:04X}"` for a 16-bit number. */
  function Hex4(n: uint16): (s: string)
    ensures |s| == 4 && BracketFree(s)
  {
    [HexDigit(n / 0x1000), HexDigit(n / 0x100 % 0x10), HexDigit(n / 0x10 % 0x10), HexDigit(n % 0x10)]
  }

  /**
    `str(tag)`, rendered "(GGGG,EEEE)".  The exact rendering varies between
    versions of the dataset library; the model relies only on its having
    no square brackets.
  */
  function TagText(t: Tag): (s: string)
    ensures BracketFree(s)
  {
    "(" + Hex4(t.group) + "," + Hex4(t.elem) + ")"
  }

  /** The decimal digit for d. */
  function DigitChar(d: nat): (c: char)
    requires d < 10
    ensures IsDigit(c) && c as int - '0' as int == d
  {
    (d + '0' as int) as char
  }

  /** `str(n)` for a natural number: decimal, without leading zeros. */
  function NatText(n: nat): (s: string)
    ensures |s| > 0 && AllDigits(s)
    ensures |s| > 1 ==> s[0] != '0'
  {
    if n < 10 then [DigitChar(n)]
    else NatText(n / 10) + [DigitChar(n % 10)]
  }

  /** `int(s)` for a string of decimal digits; leading zeros are allowed. */
  function DigitsValue(s: string): nat
    requires AllDigits(s)
  {
    if |s| == 0 then 0
    else DigitsValue(s[..|s| - 1]) * 10 + (s[|s| - 1] as int - '0' as int)
  }

  /** Reading back a rendered number gives the number. */
  lemma {:induction false} NatTextRoundTrip(n: nat)
    ensures DigitsValue(NatText(n)) == n
  {
    if n >= 10 {
      NatTextRoundTrip(n / 10);
      var s := NatText(n);
      assert s[..|s| - 1] == NatText(n / 10);
    }
  }

  /* ---------------------------------------------------------------
     flatten_dicom_dataset
     --------------------------------------------------------------- */

  /** The readable name of an element: its keyword, or `str(tag)` when the keyword is empty. */
  function Name<V>(e: Element<V>): string {
    if |e.keyword| > 0 then e.keyword else TagText(e.tag)
  }

  /** The prefix under which item i of the sequence named `key` is flattened: `f"{key}[{i}]."`. */
  function ItemPrefix(key: string, i: nat): string {
    key + "[" + NatText(i) + "]."
  }

  /** The assignments `flattened[key] = elem.value` made while walking `ds`, in order. */
  function DatasetWrites<V>(ds: seq<Element<V>>, prefix: string): seq<(string, V)>
    decreases ds
  {
    if |ds| == 0 then []
    else ElementWrites(ds[0], prefix) + DatasetWrites(ds[1..], prefix)
  }

  /** The assignments made for one element: none for Pixel Data, one for a value, the items' for a sequence. */
  function ElementWrites<V>(e: Element<V>, prefix: string): seq<(string, V)>
    decreases e
  {
    if e.tag == PixelData then []
    else
      var key := prefix + Name(e);
      match e.content
      case Value(v) => [(key, v)]
      case Sequence(items) => ItemWrites(items, key, 0)
  }

  /** The assignments made for items i, i+1, ... of the sequence named `key`. */
  function ItemWrites<V>(items: seq<Dataset<V>>, key: string, i: nat): seq<(string, V)>
    decreases items, |items| - i
  {
    if i >= |items| then []
    else DatasetWrites(items[i].elements, ItemPrefix(key, i)) + ItemWrites(items, key, i + 1)
  }

  /** The write at position j is the last one to key k. */
  predicate LastWriteAt<V>(writes: seq<(string, V)>, k: string, j: nat) {
    j < |writes| && writes[j].0 == k && forall j' :: j < j' < |writes| ==> writes[j'].0 != k
  }

  /**
    Performing the assignments in order on a dictionary: a key ends up
    present when it was present or written, and holds the value of its
    last write, or its old value when it was never written.
  */
  function Apply<V>(m: map<string, V>, writes: seq<(string, V)>): (r: map<string, V>)
    ensures forall k :: k in r <==> k in m || exists j :: 0 <= j < |writes| && writes[j].0 == k
    ensures forall k :: k in m && (forall j :: 0 <= j < |writes| ==> writes[j].0 != k) ==> k in r && r[k] == m[k]
    ensures forall k, j: nat :: LastWriteAt(writes, k, j) ==> k in r && r[k] == writes[j].1
    decreases |writes|
  {
    if |writes| == 0 then m
    else
      var r := Apply(m[writes[0].0 := writes[0].1], writes[1..]);
      assert forall j :: 1 <= j < |writes| ==> writes[j] == writes[1..][j - 1];
      r
  }

  /**
    `flatten_dicom_dataset(dataset)`: the keys are exactly those written
    during the walk, and a key written more than once keeps the value of
    its last write.
  */
  function Flatten<V>(ds: Dataset<V>): (r: map<string, V>)
    ensures var writes := DatasetWrites(ds.elements, "");
      && (forall k :: k in r <==> exists j :: 0 <= j < |writes| && writes[j].0 == k)
      && (forall k, j: nat :: LastWriteAt(writes, k, j) ==> k in r && r[k] == writes[j].1)
  {
    Apply(map[], DatasetWrites(ds.elements, ""))
  }

  /* ---------------------------------------------------------------
     Properties of the walk
     --------------------------------------------------------------- */

  /** Every key written while walking under `prefix` starts with `prefix`. */
  lemma {:induction false} DatasetKeysHavePrefix<V>(elems: seq<Element<V>>, prefix: string)
    ensures forall w :: w in DatasetWrites(elems, prefix) ==> prefix <= w.0
    decreases elems
  {
    if |elems| > 0 {
      ElementKeysHavePrefix(elems[0], prefix);
      DatasetKeysHavePrefix(elems[1..], prefix);
    }
  }

  lemma {:induction false} ElementKeysHavePrefix<V>(e: Element<V>, prefix: string)
    ensures forall w :: w in ElementWrites(e, prefix) ==> prefix <= w.0
    decreases e
  {
    if e.tag != PixelData && e.content.Sequence? {
      ItemKeysHavePrefix(e.content.items, prefix + Name(e), 0);
    }
  }

  lemma {:induction false} ItemKeysHavePrefix<V>(items: seq<Dataset<V>>, key: string, i: nat)
    ensures forall w :: w in ItemWrites(items, key, i) ==> key + "[" <= w.0
    decreases items, |items| - i
  {
    if i < |items| {
      DatasetKeysHavePrefix(items[i].elements, ItemPrefix(key, i));
      ItemKeysHavePrefix(items, key, i + 1);
    }
  }

  /** The writes of items i, i+1, ... are those of each single item under its own prefix. */
  lemma {:induction false} ItemWritesMembers<V>(items: seq<Dataset<V>>, key: string, i: nat)
    ensures forall w :: w in ItemWrites(items, key, i) <==>
      exists n :: i <= n < |items| && w in DatasetWrites(items[n].elements, ItemPrefix(key, n))
    decreases |items| - i
  {
    if i < |items| {
      ItemWritesMembers(items, key, i + 1);
    }
  }

  /**
    An element other than Pixel Data with a plain value writes exactly one
    key: the prefix followed by its keyword, or by `str(tag)` when the
    keyword is empty.
  */
  lemma ValueElementKey<V>(e: Element<V>, prefix: string)
    requires e.tag != PixelData && e.content.Value?
    ensures ElementWrites(e, prefix) == [(prefix + (if e.keyword != "" then e.keyword else TagText(e.tag)), e.content.value)]
  {
  }

  /**
    A dataset holding one plain element other than Pixel Data flattens to
    the one-entry dictionary keyed by its name: its keyword, or `str(tag)`
    when the keyword is empty.
  */
  lemma FlattenSingleValue<V>(e: Element<V>)
    requires e.tag != PixelData && e.content.Value?
    ensures Flatten(Dataset([e])) == map[Name(e) := e.content.value]
  {
    var writes := DatasetWrites([e], "");
    assert "" + Name(e) == Name(e);
    assert ElementWrites(e, "") == [(Name(e), e.content.value)];
    assert [e][1..] == [];
    assert writes == ElementWrites(e, "") + DatasetWrites([], "");
    assert LastWriteAt(writes, Name(e), 0);
    var r := Flatten(Dataset([e]));
    assert forall k :: k in r <==> k == Name(e);
  }

  /**
    Two plain elements with the same name: the later one overwrites the
    earlier one, so the dictionary holds only the second value.
  */
  lemma FlattenLaterDuplicateWins<V>(e1: Element<V>, e2: Element<V>)
    requires e1.tag != PixelData && e1.content.Value?
    requires e2.tag != PixelData && e2.content.Value?
    requires Name(e1) == Name(e2)
    ensures Flatten(Dataset([e1, e2])) == map[Name(e2) := e2.content.value]
  {
    var writes := DatasetWrites([e1, e2], "");
    assert "" + Name(e1) == Name(e1) && "" + Name(e2) == Name(e2);
    assert ElementWrites(e1, "") == [(Name(e1), e1.content.value)];
    assert ElementWrites(e2, "") == [(Name(e2), e2.content.value)];
    assert [e2][1..] == [];
    assert DatasetWrites([e2], "") == ElementWrites(e2, "") + DatasetWrites([], "");
    assert [e1, e2][1..] == [e2];
    assert writes == [(Name(e1), e1.content.value), (Name(e2), e2.content.value)];
    assert LastWriteAt(writes, Name(e2), 1);
    var r := Flatten(Dataset([e1, e2]));
    assert forall k :: k in r <==> k == Name(e2);
  }

  /**
    A sequence element writes no key of its own: every key it produces
    lies inside one of its items, `key[i].…` for an item index i, and an
    item's keys all start with that item's prefix.
  */
  lemma SequenceElementKeys<V>(e: Element<V>, prefix: string)
    requires e.tag != PixelData && e.content.Sequence?
    ensures var key, items := prefix + Name(e), e.content.items;
      forall w :: w in ElementWrites(e, prefix) <==>
        exists i :: 0 <= i < |items| && w in DatasetWrites(items[i].elements, ItemPrefix(key, i))
    ensures var key, items := prefix + Name(e), e.content.items;
      forall i, w :: 0 <= i < |items| && w in DatasetWrites(items[i].elements, ItemPrefix(key, i)) ==> ItemPrefix(key, i) <= w.0
    ensures forall w :: w in ElementWrites(e, prefix) ==> |w.0| > |prefix + Name(e)|
  {
    var key, items := prefix + Name(e), e.content.items;
    ItemWritesMembers(items, key, 0);
    ItemKeysHavePrefix(items, key, 0);
    forall i | 0 <= i < |items| {
      DatasetKeysHavePrefix(items[i].elements, ItemPrefix(key, i));
    }
  }

  /** Walking a concatenation of elements writes the writes of each part in turn. */
  lemma {:induction false} DatasetWritesAppend<V>(a: seq<Element<V>>, b: seq<Element<V>>, prefix: string)
    ensures DatasetWrites(a + b, prefix) == DatasetWrites(a, prefix) + DatasetWrites(b, prefix)
  {
    if |a| > 0 {
      assert (a + b)[1..] == a[1..] + b;
      DatasetWritesAppend(a[1..], b, prefix);
    } else {
      assert a + b == b;
    }
  }

  /** An empty sequence element contributes nothing to the flattened dictionary. */
  lemma EmptySequenceAddsNothing<V>(before: seq<Element<V>>, e: Element<V>, after: seq<Element<V>>)
    requires e.content == Sequence([])
    ensures Flatten(Dataset(before + [e] + after)) == Flatten(Dataset(before + after))
  {
    EmptySequenceWritesNothing(before, e, after);
  }

  lemma EmptySequenceWritesNothing<V>(before: seq<Element<V>>, e: Element<V>, after: seq<Element<V>>)
    requires e.content == Sequence([])
    ensures DatasetWrites(before + [e] + after, "") == DatasetWrites(before + after, "")
  {
    assert ElementWrites(e, "") == [];
    assert DatasetWrites([e], "") == [];
    DatasetWritesAppend(before + [e], after, "");
    DatasetWritesAppend(before, [e], "");
    DatasetWritesAppend(before, after, "");
  }

  /* ---------------------------------------------------------------
     Pixel Data is skipped at every depth
     --------------------------------------------------------------- */

  /** The elements with every Pixel Data element removed, at every nesting depth. */
  function StripDataset<V>(elems: seq<Element<V>>): seq<Element<V>>
    decreases elems
  {
    if |elems| == 0 then []
    else if elems[0].tag == PixelData then StripDataset(elems[1..])
    else [StripElement(elems[0])] + StripDataset(elems[1..])
  }

  function StripElement<V>(e: Element<V>): Element<V>
    decreases e
  {
    match e.content
    case Value(_) => e
    case Sequence(items) => e.(content := Sequence(StripItems(items)))
  }

  function StripItems<V>(items: seq<Dataset<V>>): (r: seq<Dataset<V>>)
    ensures |r| == |items|
    decreases items
  {
    if |items| == 0 then []
    else [Dataset(StripDataset(items[0].elements))] + StripItems(items[1..])
  }

  /** No element at any depth carries the Pixel Data tag. */
  predicate NoPixelData<V>(elems: seq<Element<V>>)
    decreases elems
  {
    forall k :: 0 <= k < |elems| ==> CleanElement(elems[k])
  }

  predicate CleanElement<V>(e: Element<V>)
    decreases e
  {
    && e.tag != PixelData
    && (e.content.Sequence? ==>
          forall i :: 0 <= i < |e.content.items| ==> NoPixelData(e.content.items[i].elements))
  }

  /**
    Pixel Data plays no part in the flattened dictionary: removing every
    Pixel Data element, at every depth, leaves the walk's writes, and so
    the dictionary, unchanged; and what is left holds no Pixel Data.
  */
  lemma {:induction false} StripKeepsWrites<V>(elems: seq<Element<V>>, prefix: string)
    ensures DatasetWrites(StripDataset(elems), prefix) == DatasetWrites(elems, prefix)
    ensures NoPixelData(StripDataset(elems))
    decreases elems
  {
    if |elems| > 0 {
      StripKeepsWrites(elems[1..], prefix);
      if elems[0].tag != PixelData {
        var x, rest := StripElement(elems[0]), StripDataset(elems[1..]);
        StripElementKeepsWrites(elems[0], prefix);
        assert ([x] + rest)[0] == x && ([x] + rest)[1..] == rest;
        assert forall k :: 1 <= k < |[x] + rest| ==> ([x] + rest)[k] == rest[k - 1];
      }
    }
  }

  lemma {:induction false} StripElementKeepsWrites<V>(e: Element<V>, prefix: string)
    requires e.tag != PixelData
    ensures ElementWrites(StripElement(e), prefix) == ElementWrites(e, prefix)
    ensures CleanElement(StripElement(e))
    decreases e
  {
    if e.content.Sequence? {
      var items := e.content.items;
      StripItemsKeepWrites(items, prefix + Name(e), 0);
      assert Name(StripElement(e)) == Name(e);
    }
  }

  lemma {:induction false} StripItemsKeepWrites<V>(items: seq<Dataset<V>>, key: string, i: nat)
    ensures ItemWrites(StripItems(items), key, i) == ItemWrites(items, key, i)
    ensures forall n :: i <= n < |items| ==> NoPixelData(StripItems(items)[n].elements)
    decreases items, |items| - i
  {
    if i < |items| {
      StripItemsAt(items, i);
      StripKeepsWrites(items[i].elements, ItemPrefix(key, i));
      StripItemsKeepWrites(items, key, i + 1);
    }
  }

  /** Item n of the stripped items is item n, stripped. */
  lemma {:induction false} StripItemsAt<V>(items: seq<Dataset<V>>, n: nat)
    requires n < |items|
    ensures StripItems(items)[n] == Dataset(StripDataset(items[n].elements))
    decreases n
  {
    if n > 0 {
      StripItemsAt(items[1..], n - 1);
    }
  }

  /* ---------------------------------------------------------------
     extract_index
     --------------------------------------------------------------- */

  /** The pattern `\[(\d+)\]` matches `s[i..j+1]`: a `[`, one or more digits, then `]` at j. */
  predicate BracketedAt(s: string, i: nat, j: nat) {
    && i + 1 < j < |s|
    && s[i] == '['
    && s[j] == ']'
    && AllDigits(s[i + 1..j])
  }

  /** Where the run of digits that starts at `from` ends. */
  function DigitRunEnd(s: string, from: nat): (j: nat)
    requires from <= |s|
    ensures from <= j <= |s|
    ensures AllDigits(s[from..j])
    ensures j == |s| || !IsDigit(s[j])
    decreases |s| - from
  {
    if from == |s| || !IsDigit(s[from]) then from
    else
      var j := DigitRunEnd(s, from + 1);
      assert s[from..j] == [s[from]] + s[from + 1..j];
      j
  }

  /** A match that starts at i ends where the digit run after the `[` ends, so it is unique. */
  lemma MatchEndIsRunEnd(s: string, i: nat)
    requires i < |s|
    ensures forall j: nat :: BracketedAt(s, i, j) ==> j == DigitRunEnd(s, i + 1)
  {
  }

  /** The match at position a is the leftmost one at or after position i. */
  ghost predicate LeftmostFrom(s: string, i: nat, a: nat, b: nat) {
    && i <= a
    && BracketedAt(s, a, b)
    && forall a': nat, b': nat :: i <= a' < a ==> !BracketedAt(s, a', b')
  }

  /** `re.search` scanning start positions i, i+1, ... for the pattern. */
  function SearchFrom(s: string, i: nat): (r: Option<nat>)
    requires i <= |s|
    ensures r.None? <==> forall a: nat, b: nat :: i <= a ==> !BracketedAt(s, a, b)
    ensures forall a: nat, b: nat :: LeftmostFrom(s, i, a, b) ==> r == Some(DigitsValue(s[a + 1..b]))
    decreases |s| - i
  {
    if i == |s| then None
    else
      MatchEndIsRunEnd(s, i);
      var j := DigitRunEnd(s, i + 1);
      if s[i] == '[' && i + 1 < j < |s| && s[j] == ']' then
        assert BracketedAt(s, i, j);
        Some(DigitsValue(s[i + 1..j]))
      else
        assert forall b: nat :: !BracketedAt(s, i, b);
        assert forall a: nat, b: nat :: LeftmostFrom(s, i, a, b) ==> LeftmostFrom(s, i + 1, a, b);
        SearchFrom(s, i + 1)
  }

  /**
    `extract_index(string)`: the number in the leftmost `[digits]` of the
    string, leading zeros allowed, or None when there is no such match.
  */
  function ExtractIndex(s: string): (r: Option<nat>)
    ensures r.None? <==> forall a: nat, b: nat :: !BracketedAt(s, a, b)
    ensures forall a: nat, b: nat :: LeftmostFrom(s, 0, a, b) ==> r == Some(DigitsValue(s[a + 1..b]))
  {
    SearchFrom(s, 0)
  }

  /** Leading zeros are read as part of the number. */
  lemma ExtractIndexLeadingZeros()
    ensures ExtractIndex("Seq[007].X") == Some(7)
  {
    var s := "Seq[007].X";
    assert BracketedAt(s, 3, 7) && s[4..7] == "007";
    assert LeftmostFrom(s, 0, 3, 7);
    assert "007"[..2] == "00" && "00"[..1] == "0" && "0"[..0] == "";
    assert DigitsValue("007") == 7;
  }

  /** Only the first bracketed run counts, so a nested key yields its outer index. */
  lemma ExtractIndexFirstMatch()
    ensures ExtractIndex("A[12].B[3].C") == Some(12)
  {
    var t := "A[12].B[3].C";
    assert BracketedAt(t, 1, 4) && t[2..4] == "12";
    assert LeftmostFrom(t, 0, 1, 4);
    assert "12"[..1] == "1" && "1"[..0] == "";
    assert DigitsValue("12") == 12;
  }

  /** Empty brackets, a non-digit inside the brackets and bracket-free text do not match. */
  lemma ExtractIndexNoMatch()
    ensures ExtractIndex("[]") == None
    ensures ExtractIndex("[a1]") == None
    ensures ExtractIndex("PatientName") == None
  {
  }

  /* ---------------------------------------------------------------
     The two functions compose
     --------------------------------------------------------------- */

  /** After a bracket-free head, the first `[digits]` is the rendered index that follows it. */
  lemma ExtractIndexAfterHead(head: string, i: nat, rest: string)
    requires BracketFree(head)
    ensures ExtractIndex(head + "[" + NatText(i) + "]" + rest) == Some(i)
  {
    var d := NatText(i);
    var s := head + "[" + d + "]" + rest;
    var a, b := |head|, |head| + 1 + |d|;
    assert s[a + 1..b] == d;
    assert BracketedAt(s, a, b);
    forall a': nat, b': nat | a' < a
      ensures !BracketedAt(s, a', b')
    {
      assert s[a'] == head[a'];
    }
    assert LeftmostFrom(s, 0, a, b);
    NatTextRoundTrip(i);
  }

  /** A key written under the prefix of item i starts with that prefix, followed by `.`. */
  lemma ItemKeyShape<V>(items: seq<Dataset<V>>, key: string, i: nat, w: (string, V))
    requires i < |items| && w in DatasetWrites(items[i].elements, ItemPrefix(key, i))
    ensures ItemPrefix(key, i) <= w.0
    ensures w.0 == key + "[" + NatText(i) + "]" + ("." + w.0[|ItemPrefix(key, i)|..])
  {
    var p := ItemPrefix(key, i);
    DatasetKeysHavePrefix(items[i].elements, p);
    assert w.0 == p + w.0[|p|..];
  }

  /**
    For a top-level sequence element whose name has no brackets, every key
    it produces lies inside some item i, starts with `name[i].`, and
    `extract_index` recovers i from it, however deeply the key is nested.
  */
  lemma ExtractOuterIndex<V>(e: Element<V>)
    requires e.tag != PixelData && e.content.Sequence? && BracketFree(Name(e))
    ensures forall w :: w in ElementWrites(e, "") ==>
      exists i :: 0 <= i < |e.content.items| && ItemPrefix(Name(e), i) <= w.0 && ExtractIndex(w.0) == Some(i)
  {
    forall w | w in ElementWrites(e, "")
      ensures exists i :: 0 <= i < |e.content.items| && ItemPrefix(Name(e), i) <= w.0 && ExtractIndex(w.0) == Some(i)
    {
      OuterIndexOf(e, w);
    }
  }

  lemma OuterIndexOf<V>(e: Element<V>, w: (string, V))
    requires e.tag != PixelData && e.content.Sequence? && BracketFree(Name(e))
    requires w in ElementWrites(e, "")
    ensures exists i :: 0 <= i < |e.content.items| && ItemPrefix(Name(e), i) <= w.0 && ExtractIndex(w.0) == Some(i)
  {
    var items, key := e.content.items, Name(e);
    assert "" + key == key;
    assert w in ItemWrites(items, key, 0);
    ItemWritesMembers(items, key, 0);
    var i :| 0 <= i < |items| && w in DatasetWrites(items[i].elements, ItemPrefix(key, i));
    ItemKeyShape(items, key, i, w);
    ExtractIndexAfterHead(key, i, "." + w.0[|ItemPrefix(key, i)|..]);
  }
}
