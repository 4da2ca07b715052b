/**
 * The low-level helpers of critter_api.py that work on DynamoDB's wire format, where every
 * attribute value is a type-tagged single-entry map such as `{"N": "3.7"}`:
 * `sort_responses` and `convert_scan_response(s)`.
 */
module ScanHelpers {
  import opened Values
  import opened Strings
  import Sorting

  /** A tagged attribute value `{tag: payload}`; `N` and `S` payloads are strings on the wire. */
  datatype AttrValue = AttrValue(tag: string, payload: Value)

  /** An item of a low-level scan or query response. */
  type RawItem = map<string, AttrValue>

  const SubmittedInt: string := "submitted_int"
  const NumberTag: string := "N"

  /** `obj` is `item` with every tagged value replaced by its payload. */
  ghost predicate Unwraps(obj: Item, item: RawItem)
  {
    obj.Keys == item.Keys && forall k :: k in item ==> obj[k] == item[k].payload
  }

  /** `convert_scan_response`: fills a fresh dictionary key by key. */
  method ConvertScanResponse(item: RawItem) returns (obj: Item)
    ensures obj.Keys == item.Keys
    ensures forall k :: k in item ==> obj[k] == item[k].payload
  {
    obj := map[];
    var pending := item.Keys;
    while pending != {}
      invariant pending <= item.Keys
      invariant obj.Keys == item.Keys - pending
      invariant forall k :: k in obj ==> obj[k] == item[k].payload
      decreases pending
    {
      var key :| key in pending;
      obj := obj[key := item[key].payload];
      pending := pending - {key};
    }
  }

  /** `convert_scan_responses`: one converted item per input item, in the same order. */
  method ConvertScanResponses(items: seq<RawItem>) returns (parsed: seq<Item>)
    ensures |parsed| == |items|
    ensures forall i :: 0 <= i < |items| ==> Unwraps(parsed[i], items[i])
  {
    parsed := [];
    for i := 0 to |items|
      invariant |parsed| == i
      invariant forall j :: 0 <= j < i ==> Unwraps(parsed[j], items[j])
    {
      var obj := ConvertScanResponse(items[i]);
      parsed := parsed + [obj];
    }
  }

  function Tags(item: RawItem): map<string, string>
  {
    map k | k in item :: item[k].tag
  }

  function Rewrap(obj: Item, tags: map<string, string>): RawItem
    requires obj.Keys == tags.Keys
  {
    map k | k in obj :: AttrValue(tags[k], obj[k])
  }

  /** Unwrapping loses only the tags: putting them back gives the original item. */
  lemma UnwrapLosesOnlyTags(obj: Item, item: RawItem)
    requires Unwraps(obj, item)
    ensures Rewrap(obj, Tags(item)) == item
  {
    var back := Rewrap(obj, Tags(item));
    assert back.Keys == item.Keys;
    forall k | k in item ensures back[k] == item[k] {
      assert back[k] == AttrValue(item[k].tag, item[k].payload);
    }
  }

  /** `item['submitted_int']['N']`, or `None` where that expression raises `KeyError`. */
  function SubmittedKey(item: RawItem): Option<string>
  {
    if SubmittedInt in item && item[SubmittedInt].tag == NumberTag && item[SubmittedInt].payload.Str?
    then Some(item[SubmittedInt].payload.text)
    else None
  }

  /** The sort key of an item that has one. */
  function KeyText(item: RawItem): string
  {
    match SubmittedKey(item)
    case Some(t) => t
    case None => ""
  }

  predicate AllKeyed(items: seq<RawItem>)
  {
    forall i :: 0 <= i < |items| ==> SubmittedKey(items[i]).Some?
  }

  lemma LexLeIsTotalPreorder()
    ensures Sorting.TotalPreorder(LexLe)
  {
    forall a, b ensures LexLe(a, b) || LexLe(b, a) {
      LexLeTotal(a, b);
    }
    forall a, b, c | LexLe(a, b) && LexLe(b, c) ensures LexLe(a, c) {
      LexLeTransitive(a, b, c);
    }
  }

  /**
   * `sort_responses` as written: the keys are strings, so the order is lexicographic.
   * `None` stands for the `KeyError` raised when an item has no `submitted_int` number.
   * Otherwise the result is a permutation of the input whose keys do not increase from
   * start to end, and items with equal keys keep their input order.
   */
  function SortResponses(items: seq<RawItem>): (r: Option<seq<RawItem>>)
    ensures r.Some? <==> AllKeyed(items)
    ensures r.Some? ==> multiset(r.value) == multiset(items)
    ensures r.Some? ==> forall i, j :: 0 <= i < j < |r.value| ==> LexLe(KeyText(r.value[j]), KeyText(r.value[i]))
    ensures r.Some? ==> forall k :: Sorting.WithKey(r.value, KeyText, k) == Sorting.WithKey(items, KeyText, k)
  {
    if AllKeyed(items) then
      LexLeIsTotalPreorder();
      Sorting.SortDescCorrect(items, KeyText, LexLe);
      Some(Sorting.SortDesc(items, KeyText, LexLe))
    else
      None
  }

  /**
   * The contract of `SortResponses` leaves one possible answer: any permutation of the items
   * with non-increasing string keys and equal keys in input order is exactly that answer,
   * which is why it is the list Python's stable `sorted` returns.
   */
  lemma SortResponsesUnique(items: seq<RawItem>, r: seq<RawItem>)
    requires AllKeyed(items)
    requires multiset(r) == multiset(items)
    requires forall i, j :: 0 <= i < j < |r| ==> LexLe(KeyText(r[j]), KeyText(r[i]))
    requires forall k :: Sorting.WithKey(r, KeyText, k) == Sorting.WithKey(items, KeyText, k)
    ensures SortResponses(items) == Some(r)
  {
    LexLeIsTotalPreorder();
    assert Sorting.Antisymmetric(LexLe) by {
      forall a, b | LexLe(a, b) && LexLe(b, a) ensures a == b {
        LexLeAntisymmetric(a, b);
      }
    }
    Sorting.SortedStableUnique(SortResponses(items).value, r, KeyText, LexLe);
  }

  /** The number an item's `submitted_int` denotes, when it is a plain digit string. */
  function SubmittedValue(item: RawItem): Option<nat>
  {
    match SubmittedKey(item)
    case Some(t) => if IsDigits(t) then Some(DigitsValue(t)) else None
    case None => None
  }

  function KeyValue(item: RawItem): nat
  {
    match SubmittedValue(item)
    case Some(n) => n
    case None => 0
  }

  predicate AllValued(items: seq<RawItem>)
  {
    forall i :: 0 <= i < |items| ==> SubmittedValue(items[i]).Some?
  }

  predicate NatLe(a: nat, b: nat)
  {
    a <= b
  }

  /**
   * `sort_responses` as its key's name intends: newest `submitted_int` first by numeric
   * value. `None` when some item has no integral `submitted_int`.
   */
  function SortResponsesByValue(items: seq<RawItem>): (r: Option<seq<RawItem>>)
    ensures r.Some? <==> AllValued(items)
    ensures r.Some? ==> multiset(r.value) == multiset(items)
    ensures r.Some? ==> forall i, j :: 0 <= i < j < |r.value| ==> KeyValue(r.value[j]) <= KeyValue(r.value[i])
    ensures r.Some? ==> forall k :: Sorting.WithKey(r.value, KeyValue, k) == Sorting.WithKey(items, KeyValue, k)
  {
    if AllValued(items) then
      Sorting.SortDescCorrect(items, KeyValue, NatLe);
      Some(Sorting.SortDesc(items, KeyValue, NatLe))
    else
      None
  }

  /** An item whose only attribute is `submitted_int`, holding the number `n`. */
  function SubmittedItem(n: string): RawItem
  {
    map[SubmittedInt := AttrValue(NumberTag, Str(n))]
  }

  lemma LexicalSortOfTenNine()
    ensures Sorting.SortDesc([SubmittedItem("10"), SubmittedItem("9")], KeyText, LexLe)
         == [SubmittedItem("9"), SubmittedItem("10")]
  {
    var ten, nine := SubmittedItem("10"), SubmittedItem("9");
    assert KeyText(ten) == "10" && KeyText(nine) == "9";
    assert !LexLe("9", "10") by { assert "9"[0] > "10"[0]; }
    assert [ten, nine][1..] == [nine] && [nine][1..] == [];
    assert Sorting.SortDesc([nine], KeyText, LexLe) == [nine];
    assert Sorting.Insert(ten, [nine], KeyText, LexLe) == [nine] + Sorting.Insert(ten, [], KeyText, LexLe);
  }

  lemma NumericSortOfTenNine()
    ensures KeyValue(SubmittedItem("9")) == 9 && KeyValue(SubmittedItem("10")) == 10
    ensures Sorting.SortDesc([SubmittedItem("10"), SubmittedItem("9")], KeyValue, NatLe)
         == [SubmittedItem("10"), SubmittedItem("9")]
  {
    var ten, nine := SubmittedItem("10"), SubmittedItem("9");
    assert DigitsValue("9") == 9;
    assert DigitsValue("10") == 10 by { assert "10"[..1] == "1"; }
    assert IsDigits("9") && IsDigits("10");
    assert KeyValue(nine) == 9 && KeyValue(ten) == 10;
    assert [ten, nine][1..] == [nine] && [nine][1..] == [];
    assert Sorting.SortDesc([nine], KeyValue, NatLe) == [nine];
    assert Sorting.Insert(ten, [nine], KeyValue, NatLe) == [ten, nine];
  }

  /**
   * Two items with `submitted_int` 10 and 9: the lexicographic sort puts "9" first, so the
   * as-written result is in ascending numeric order; the numeric sort puts 10 first.
   */
  lemma LexicalSortMisordersNumbers()
    ensures var ten, nine := SubmittedItem("10"), SubmittedItem("9");
            && SortResponses([ten, nine]) == Some([nine, ten])
            && KeyValue(nine) < KeyValue(ten)
            && SortResponsesByValue([ten, nine]) == Some([ten, nine])
  {
    var ten, nine := SubmittedItem("10"), SubmittedItem("9");
    LexicalSortOfTenNine();
    NumericSortOfTenNine();
    assert SubmittedKey(ten).Some? && SubmittedKey(nine).Some?;
    assert AllKeyed([ten, nine]);
    assert SubmittedValue(ten).Some? && SubmittedValue(nine).Some?;
    assert AllValued([ten, nine]);
  }
}
