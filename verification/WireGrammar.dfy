/**
 What the reader accepts, as a grammar: a field is a tag, a varint that may be
 padded, and a value whose form the tag's wire type tells; a group nests fields.
 */
module WireGrammar {
  import opened Basics
  import opened Varint
  import opened Wire

  // ----- varints, minimal or padded -----

  type Digit = d: int | 0 <= d < 128

  /** Seven bits a byte, the lowest first; all bytes but the last have the high bit set. */
  function VarintBytes(ds: seq<Digit>): (s: seq<byte>)
    ensures |s| == |ds|
  {
    if ds == [] then []
    else if |ds| == 1 then [ds[0]]
    else [ds[0] as int + 128] + VarintBytes(ds[1..])
  }

  function Number(ds: seq<Digit>): nat {
    if ds == [] then 0 else ds[0] + 128 * Number(ds[1..])
  }

  /** One to ten digits; their value is taken modulo 2^64. */
  predicate IsVarint(ds: seq<Digit>) {
    1 <= |ds| <= 10
  }

  function Value(ds: seq<Digit>): nat {
    Number(ds) % TWO_TO_THE_64
  }

  lemma {:induction false} RawOfDigits(ds: seq<Digit>, rest: seq<byte>, left: nat)
    requires 1 <= |ds| <= left
    ensures Raw(VarintBytes(ds) + rest, left) == Ok((Number(ds), |ds|))
  {
    var s := VarintBytes(ds) + rest;
    if |ds| == 1 {
      assert Number(ds[1..]) == 0;
    } else {
      assert s[1..] == VarintBytes(ds[1..]) + rest;
      RawOfDigits(ds[1..], rest, left - 1);
    }
  }

  lemma ReadOfDigits(ds: seq<Digit>, rest: seq<byte>)
    requires IsVarint(ds)
    ensures Read(VarintBytes(ds) + rest) == Ok((Value(ds), |ds|))
  {
    RawOfDigits(ds, rest, 10);
  }

  lemma {:induction false} DigitsOfRaw(s: seq<byte>, left: nat) returns (ds: seq<Digit>)
    requires Raw(s, left).Ok?
    ensures 1 <= |ds| <= left && |ds| <= |s| && s[..|ds|] == VarintBytes(ds)
    ensures Raw(s, left) == Ok((Number(ds), |ds|))
  {
    if s[0] < 128 {
      ds := [s[0]];
      assert Number(ds[1..]) == 0;
    } else {
      var tail := DigitsOfRaw(s[1..], left - 1);
      ds := [s[0] - 128] + tail;
      assert ds[1..] == tail;
      assert s[..|ds|] == [s[0]] + s[1..][..|tail|];
    }
  }

  lemma DigitsOfRead(s: seq<byte>) returns (ds: seq<Digit>)
    requires Read(s).Ok?
    ensures IsVarint(ds) && |ds| <= |s| && s[..|ds|] == VarintBytes(ds) && Read(s) == Ok((Value(ds), |ds|))
  {
    ds := DigitsOfRaw(s, 10);
  }

  /** A varint cannot be read if ten bytes have the high bit set, or all that there are. */
  lemma ReadFails(s: seq<byte>)
    ensures Read(s) == Err(IntOverflow) <==> |s| >= 10 && forall i | 0 <= i < 10 :: s[i] >= 128
    ensures Read(s) == Err(UnexpectedEOF) <==> |s| < 10 && forall i | 0 <= i < |s| :: s[i] >= 128
  {
    RawFails(s, 10);
  }

  lemma {:induction false} RawFails(s: seq<byte>, left: nat)
    ensures Raw(s, left) == Err(IntOverflow) <==> |s| >= left && forall i | 0 <= i < left :: s[i] >= 128
    ensures Raw(s, left) == Err(UnexpectedEOF) <==> |s| < left && forall i | 0 <= i < |s| :: s[i] >= 128
  {
    if left > 0 && s != [] && s[0] >= 128 {
      RawFails(s[1..], left - 1);
      assert forall i | 1 <= i < |s| :: s[i] == s[1..][i - 1];
      assert forall i | 0 <= i < |s| - 1 :: s[1..][i] == s[i + 1];
    }
  }

  // ----- fields -----

  datatype Item =
    | VarintItem(tag: seq<Digit>, value: seq<Digit>)
    | EightItem(tag: seq<Digit>, bytes: seq<byte>)
    | ChunkItem(tag: seq<Digit>, length: seq<Digit>, payload: seq<byte>)
    | GroupItem(tag: seq<Digit>, items: seq<Item>, end: seq<Digit>)
    | FourItem(tag: seq<Digit>, bytes: seq<byte>)

  function Code(it: Item): nat {
    match it
    case VarintItem(_, _) => 0
    case EightItem(_, _) => 1
    case ChunkItem(_, _, _) => 2
    case GroupItem(_, _, _) => 3
    case FourItem(_, _) => 5
  }


  function ItemBytes(it: Item): seq<byte> {
    VarintBytes(it.tag) + match it
    case VarintItem(_, value) => VarintBytes(value)
    case EightItem(_, bytes) => bytes
    case ChunkItem(_, length, payload) => VarintBytes(length) + payload
    case GroupItem(_, items, end) => ItemsBytes(items) + VarintBytes(end)
    case FourItem(_, bytes) => bytes
  }

  function ItemsBytes(items: seq<Item>): seq<byte> {
    if items == [] then [] else ItemBytes(items[0]) + ItemsBytes(items[1..])
  }

  predicate Valid(it: Item) {
    && IsVarint(it.tag) && Value(it.tag) % 8 == Code(it)
    && match it
       case VarintItem(_, value) => IsVarint(value)
       case EightItem(_, bytes) => |bytes| == 8
       case ChunkItem(_, length, payload) => IsVarint(length) && Value(length) == |payload|
       case GroupItem(_, items, end) => AllValid(items) && IsVarint(end) && Value(end) % 8 == 4
       case FourItem(_, bytes) => |bytes| == 4
  }

  predicate AllValid(items: seq<Item>) {
    items == [] || (Valid(items[0]) && AllValid(items[1..]))
  }

  lemma {:induction false} ItemsBytesAppend(xs: seq<Item>, ys: seq<Item>)
    ensures ItemsBytes(xs + ys) == ItemsBytes(xs) + ItemsBytes(ys)
    ensures AllValid(xs + ys) == (AllValid(xs) && AllValid(ys))
  {
    if xs == [] {
      assert xs + ys == ys;
    } else {
      assert (xs + ys)[1..] == xs[1..] + ys;
      ItemsBytesAppend(xs[1..], ys);
    }
  }

  // ----- a valid field is skipped as a whole -----

  /** Reading at index i, where the bytes of a varint stand. */
  lemma ReadAtIndex(s: seq<byte>, i: nat, ds: seq<Digit>)
    requires i <= |s| && IsVarint(ds) && VarintBytes(ds) <= s[i..]
    ensures Read(s[i..]) == Ok((Value(ds), |ds|))
  {
    assert s[i..] == VarintBytes(ds) + s[i..][|ds|..];
    ReadOfDigits(ds, s[i..][|ds|..]);
  }

  lemma PrefixOf(a: seq<byte>, b: seq<byte>, s: seq<byte>, i: nat)
    requires i <= |s| && a + b <= s[i..]
    ensures a <= s[i..] && i + |a| <= |s| && b <= s[i + |a|..]
  {
    assert s[i + |a|..] == s[i..][|a|..];
    assert (a + b)[|a|..] == b;
    assert s[i..][..|a + b|] == a + b;
    assert s[i..][..|a|] == (a + b)[..|a|] == a;
    assert s[i..][|a|..][..|b|] == (a + b)[|a|..];
  }

  /** One tag and, unless it opens or closes a group, its value. */
  lemma SkipStep(s: seq<byte>, i: nat, depth: nat, wire: nat, n: nat, k: nat)
    requires i < |s| && Read(s[i..]) == Ok((wire, n)) && i + n <= |s| && k < TWO_TO_THE_63
    requires SkipValue(s, i + n, wire % 8) == Ok(k) && NewDepth(depth, wire % 8).Some?
    ensures var d := NewDepth(depth, wire % 8).value;
            SkipFrom(s, i, depth) == if d == 0 then Ok(k) else SkipFrom(s, k, d)
  {
    hide Read;
  }

  lemma SkipGroup(s: seq<byte>, i: nat, it: Item, depth: nat)
    requires i <= |s| < TWO_TO_THE_63 && Valid(it) && it.GroupItem? && ItemBytes(it) <= s[i..]
    ensures var k := i + |ItemBytes(it)|;
            SkipFrom(s, i, depth) == if depth == 0 then Ok(k) else SkipFrom(s, k, depth)
    decreases it, 1
  {
    hide Read, VarintBytes, Number, SkipFrom;
    var b := i + |it.tag|;
    TagPrefix(s, i, it);
    ReadAtIndex(s, i, it.tag);
    SkipStep(s, i, depth, Value(it.tag), |it.tag|, b);
    PrefixOf(ItemsBytes(it.items), VarintBytes(it.end), s, b);
    var k := b + |ItemsBytes(it.items)|;
    SkipItems(s, b, it.items, depth + 1);
    ReadAtIndex(s, k, it.end);
    SkipStep(s, k, depth + 1, Value(it.end), |it.end|, k + |it.end|);
  }

  /** From the start of a valid field, skipping goes on at its end, or ends there. */
  lemma {:induction false} SkipItem(s: seq<byte>, i: nat, it: Item, depth: nat)
    requires i <= |s| < TWO_TO_THE_63 && Valid(it) && ItemBytes(it) <= s[i..]
    ensures var k := i + |ItemBytes(it)|;
            SkipFrom(s, i, depth) == if depth == 0 then Ok(k) else SkipFrom(s, k, depth)
    decreases it, 2
  {
    hide Read, VarintBytes, Number, SkipFrom;
    if it.GroupItem? {
      SkipGroup(s, i, it, depth);
    } else {
      var b := i + |it.tag|;
      TagPrefix(s, i, it);
      ReadAtIndex(s, i, it.tag);
      if it.VarintItem? {
        ReadAtIndex(s, b, it.value);
      } else if it.ChunkItem? {
        PrefixOf(VarintBytes(it.length), it.payload, s, b);
        ReadAtIndex(s, b, it.length);
      }
      SkipStep(s, i, depth, Value(it.tag), |it.tag|, i + |ItemBytes(it)|);
    }
  }

  lemma TagPrefix(s: seq<byte>, i: nat, it: Item)
    requires i <= |s| && IsVarint(it.tag) && ItemBytes(it) <= s[i..]
    ensures VarintBytes(it.tag) <= s[i..] && i + |it.tag| <= |s|
    ensures ItemBytes(it)[|it.tag|..] <= s[i + |it.tag|..]
  {
    assert ItemBytes(it) == VarintBytes(it.tag) + ItemBytes(it)[|it.tag|..];
    PrefixOf(VarintBytes(it.tag), ItemBytes(it)[|it.tag|..], s, i);
  }

  lemma {:induction false} SkipItems(s: seq<byte>, i: nat, items: seq<Item>, depth: nat)
    requires i <= |s| < TWO_TO_THE_63 && AllValid(items) && ItemsBytes(items) <= s[i..] && depth > 0
    ensures SkipFrom(s, i, depth) == SkipFrom(s, i + |ItemsBytes(items)|, depth)
    decreases items, 0
  {
    hide SkipFrom, ItemBytes, Valid;
    if items != [] {
      PrefixOf(ItemBytes(items[0]), ItemsBytes(items[1..]), s, i);
      SkipItem(s, i, items[0], depth);
      SkipItems(s, i + |ItemBytes(items[0])|, items[1..], depth);
    }
  }

  // ----- and what is skipped is a valid field -----

  lemma BytesBetween(s: seq<byte>, i: nat, j: nat, k: nat)
    requires i <= j <= k <= |s|
    ensures s[i..k] == s[i..j] + s[j..k]
  {
  }

  /** The varint at index i. */
  lemma DigitsAt(s: seq<byte>, i: nat) returns (ds: seq<Digit>)
    requires i <= |s| && Read(s[i..]).Ok?
    ensures IsVarint(ds) && i + |ds| <= |s| && s[i..i + |ds|] == VarintBytes(ds)
    ensures Read(s[i..]) == Ok((Value(ds), |ds|))
  {
    ds := DigitsOfRead(s[i..]);
    assert s[i..][..|ds|] == s[i..i + |ds|];
  }

  /** A field that is no group, with its tag at i and its end at k. */
  lemma LeafAt(s: seq<byte>, i: nat, tag: seq<Digit>, k: nat) returns (it: Item)
    requires i + |tag| <= |s| && IsVarint(tag) && s[i..i + |tag|] == VarintBytes(tag)
    requires Value(tag) % 8 in {0, 1, 2, 5} && k <= |s|
    requires SkipValue(s, i + |tag|, Value(tag) % 8) == Ok(k)
    ensures Valid(it) && it.tag == tag && !it.GroupItem? && ItemBytes(it) == s[i..k]
  {
    hide Read, VarintBytes, Number;
    var b := i + |tag|;
    SkipValueAdvances(s, b, Value(tag) % 8);
    BytesBetween(s, i, b, k);
    match Value(tag) % 8
    case 0 =>
      var value := DigitsAt(s, b);
      it := VarintItem(tag, value);
    case 1 =>
      it := EightItem(tag, s[b..k]);
    case 2 =>
      var length := DigitsAt(s, b);
      BytesBetween(s, b, b + |length|, k);
      it := ChunkItem(tag, length, s[b + |length|..k]);
    case 5 =>
      it := FourItem(tag, s[b..k]);
  }

  /** What skipping has read when it succeeds: a tag, and the value that ends at k. */
  lemma SkipOpens(s: seq<byte>, i: nat, depth: nat) returns (tag: seq<Digit>, k: nat)
    requires i <= |s| && SkipFrom(s, i, depth).Ok?
    ensures IsVarint(tag) && i + |tag| <= |s| && s[i..i + |tag|] == VarintBytes(tag)
    ensures Read(s[i..]) == Ok((Value(tag), |tag|)) && SkipValue(s, i + |tag|, Value(tag) % 8) == Ok(k) && k >= i + |tag|
    ensures NewDepth(depth, Value(tag) % 8).Some? && Value(tag) % 8 in {0, 1, 2, 3, 4, 5}
    ensures var d := NewDepth(depth, Value(tag) % 8).value;
            SkipFrom(s, i, depth) == if d == 0 then Ok(k) else SkipFrom(s, k, d)
  {
    hide Read, VarintBytes, Number, SkipValue;
    tag := DigitsAt(s, i);
    var code := Value(tag) % 8;
    k := SkipValue(s, i + |tag|, code).value;
    SkipValueAdvances(s, i + |tag|, code);
    KnownCode(s, i + |tag|, code);
  }

  /** The fields of a group and its end tag, from index i on; j is where they end. */
  lemma {:induction false} GroupAt(s: seq<byte>, i: nat, depth: nat) returns (items: seq<Item>, end: seq<Digit>, j: nat)
    requires i <= |s| && depth > 0 && SkipFrom(s, i, depth).Ok? && SkipFrom(s, i, depth).value <= |s|
    ensures i < j <= |s| && AllValid(items) && IsVarint(end) && Value(end) % 8 == 4
    ensures s[i..j] == ItemsBytes(items) + VarintBytes(end)
    ensures if depth == 1 then SkipFrom(s, i, depth) == Ok(j) else SkipFrom(s, i, depth) == SkipFrom(s, j, depth - 1)
    decreases |s| - i
  {
    hide SkipFrom, Read, VarintBytes, Number, SkipValue, ItemBytes, Valid;
    var tag, k := SkipOpens(s, i, depth);
    var b := i + |tag|;
    var code := Value(tag) % 8;
    if code == 4 {
      items, end, j := [], tag, b;
      EndsHere(s, b, 4);
    } else {
      var first: Item;
      var next: nat;
      if code == 3 {
        EndsHere(s, b, 3);
        var inner, close, m := GroupAt(s, b, depth + 1);
        first, next := GroupItem(tag, inner, close), m;
        BytesBetween(s, i, b, m);
        GroupIs(tag, inner, close);
      } else {
        SkipRange(s, k, depth);
        first := LeafAt(s, i, tag, k);
        next := k;
      }
      var tail, close, m := GroupAt(s, next, depth);
      items, end, j := [first] + tail, close, m;
      BytesBetween(s, i, next, j);
      FirstOfItems(first, tail);
    }
  }

  lemma GroupIs(tag: seq<Digit>, items: seq<Item>, end: seq<Digit>)
    requires IsVarint(tag) && Value(tag) % 8 == 3 && AllValid(items) && IsVarint(end) && Value(end) % 8 == 4
    ensures Valid(GroupItem(tag, items, end))
    ensures ItemBytes(GroupItem(tag, items, end)) == VarintBytes(tag) + (ItemsBytes(items) + VarintBytes(end))
  {
  }

  lemma EndsHere(s: seq<byte>, b: nat, code: nat)
    requires b <= |s| && code in {3, 4}
    ensures SkipValue(s, b, code) == Ok(b)
  {
  }

  lemma KnownCode(s: seq<byte>, b: nat, code: nat)
    requires b <= |s| && SkipValue(s, b, code).Ok?
    ensures code in {0, 1, 2, 3, 4, 5}
  {
  }

  lemma FirstOfItems(first: Item, tail: seq<Item>)
    ensures ItemsBytes([first] + tail) == ItemBytes(first) + ItemsBytes(tail)
    ensures AllValid([first] + tail) == (Valid(first) && AllValid(tail))
  {
    hide ItemBytes, Valid;
    assert ([first] + tail)[1..] == tail;
  }

  /** The whole field that skipping from the front of s passes over. */
  lemma ItemAt(s: seq<byte>) returns (it: Item)
    requires SkipFrom(s, 0, 0).Ok? && SkipFrom(s, 0, 0).value <= |s|
    ensures Valid(it) && ItemBytes(it) == s[..SkipFrom(s, 0, 0).value]
    ensures Read(s) == Ok((Value(it.tag), |it.tag|))
  {
    hide Read, VarintBytes, Number, SkipValue;
    var k := SkipFrom(s, 0, 0).value;
    assert s[0..] == s && s[0..k] == s[..k];
    var tag := DigitsAt(s, 0);
    var b := |tag|;
    var code := Value(tag) % 8;
    if code == 3 {
      EndsHere(s, b, 3);
      var inner, close, m := GroupAt(s, b, 1);
      it := GroupItem(tag, inner, close);
      BytesBetween(s, 0, b, m);
    } else {
      KnownCode(s, b, code);
      it := LeafAt(s, 0, tag, k);
    }
  }

  // ----- one field against a schema -----

  /** The field number is the upper bits of the tag, as a signed 32-bit number. */
  lemma FieldNumberIs(n: nat, high: nat, code: nat)
    requires n < TWO_TO_THE_32 && code < 8
    ensures FieldNumber(8 * (n + TWO_TO_THE_32 * high) + code) == if n < 2_147_483_648 then n else n - TWO_TO_THE_32
  {
    assert (8 * (n + TWO_TO_THE_32 * high) + code) / 8 == n + TWO_TO_THE_32 * high;
    assert (n + TWO_TO_THE_32 * high) % TWO_TO_THE_32 == n;
  }

  function Num(it: Item): int {
    FieldNumber(Value(it.tag))
  }

  /** A known number must come with its own form of value; unknown ones may have any. */
  predicate Fits(schema: Schema, it: Item) {
    && Num(it) > 0
    && (Num(it) in schema ==> match schema[Num(it)] case Scalar => it.VarintItem? case Nested => it.ChunkItem?)
  }

  predicate AllFit(schema: Schema, items: seq<Item>) {
    items == [] || (Fits(schema, items[0]) && AllFit(schema, items[1..]))
  }

  function FieldOf(schema: Schema, it: Item): Field
    requires Fits(schema, it)
  {
    if Num(it) !in schema then UnknownField(ItemBytes(it))
    else match it
         case VarintItem(_, value) => ScalarField(Num(it), Value(value))
         case ChunkItem(_, _, payload) => ChunkField(Num(it), payload)
  }

  function FieldsOf(schema: Schema, items: seq<Item>): seq<Field>
    requires AllFit(schema, items)
  {
    if items == [] then [] else [FieldOf(schema, items[0])] + FieldsOf(schema, items[1..])
  }

  /** A valid field that fits is read as that field, whatever follows it. */
  lemma FieldOfItem(schema: Schema, s: seq<byte>, it: Item, pos: nat)
    requires Valid(it) && Fits(schema, it) && ItemBytes(it) <= s && pos + |s| < TWO_TO_THE_63
    ensures NextField(schema, s, pos) == Ok((FieldOf(schema, it), |ItemBytes(it)|))
  {
    hide Read, VarintBytes, Number, SkipFrom, FieldNumber;
    assert s[0..] == s;
    TagPrefix(s, 0, it);
    ReadAtIndex(s, 0, it.tag);
    if Num(it) !in schema {
      SkipItem(s, 0, it, 0);
      assert s[..|ItemBytes(it)|] == ItemBytes(it);
    } else {
      match it
      case VarintItem(tag, value) =>
        ReadAtIndex(s, |tag|, value);
      case ChunkItem(tag, length, payload) =>
        PrefixOf(VarintBytes(length), payload, s, |tag|);
        ReadAtIndex(s, |tag|, length);
        var b := |tag| + |length|;
        assert s[b..][..|payload|] == payload && s[b..][..|payload|] == s[b..b + |payload|];
    }
  }

  /** Whatever is read as a field is the bytes of a valid one that fits. */
  lemma ItemOfField(schema: Schema, s: seq<byte>, pos: nat) returns (it: Item)
    requires NextField(schema, s, pos).Ok? && pos + |s| < TWO_TO_THE_63
    ensures Valid(it) && Fits(schema, it) && ItemBytes(it) <= s
    ensures NextField(schema, s, pos) == Ok((FieldOf(schema, it), |ItemBytes(it)|))
  {
    hide Read, VarintBytes, Number, SkipFrom, FieldNumber;
    var n := NextField(schema, s, pos).value.1;
    NextFieldRange(schema, s, pos);
    var (wire, b) := Read(s).value;
    if FieldNumber(wire) !in schema {
      it := ItemAt(s);
    } else {
      assert s[0..] == s && s[0..n] == s[..n];
      var tag := DigitsAt(s, 0);
      KnownIsLeaf(schema, s, pos, wire, b);
      it := LeafAt(s, 0, tag, n);
    }
    FieldOfItem(schema, s, it, pos);
  }

  lemma KnownIsLeaf(schema: Schema, s: seq<byte>, pos: nat, wire: nat, b: nat)
    requires Read(s) == Ok((wire, b)) && b <= |s| && FieldNumber(wire) in schema && NextField(schema, s, pos).Ok?
    ensures wire % 8 == WireType(schema[FieldNumber(wire)]) && wire % 8 in {0, 2}
    ensures SkipValue(s, b, wire % 8) == Ok(NextField(schema, s, pos).value.1)
  {
  }

  /** Why a tag is refused, in this order; and a length that as a signed number, or
      with the index, is negative. */
  lemma FieldErrors(schema: Schema, s: seq<byte>, pos: nat)
    ensures Read(s).Err? ==> NextField(schema, s, pos) == Err(Read(s).error)
    ensures Read(s).Ok? ==>
              var wire := Read(s).value.0;
              var num := FieldNumber(wire);
              && (wire % 8 == 4 ==> NextField(schema, s, pos) == Err(EndGroup))
              && (wire % 8 != 4 && num <= 0 ==> NextField(schema, s, pos) == Err(IllegalTag))
              && (wire % 8 != 4 && num > 0 && num in schema && wire % 8 != (if schema[num].Scalar? then 0 else 2) ==>
                    NextField(schema, s, pos) == Err(WrongWireType))
    ensures (forall it | Valid(it) && it.ChunkItem? && Num(it) in schema ::
               VarintBytes(it.tag) + VarintBytes(it.length) <= s && Num(it) > 0 && schema[Num(it)].Nested?
               && pos + |it.tag| + |it.length| + |it.payload| >= 9_223_372_036_854_775_808 ==>
                 NextField(schema, s, pos) == Err(InvalidLength))
  {
    hide VarintBytes, Number, FieldNumber;
    forall it | Valid(it) && it.ChunkItem? && Num(it) in schema && Num(it) > 0 && schema[Num(it)].Nested?
                && VarintBytes(it.tag) + VarintBytes(it.length) <= s
                && pos + |it.tag| + |it.length| + |it.payload| >= 9_223_372_036_854_775_808
      ensures NextField(schema, s, pos) == Err(InvalidLength)
    {
      assert s[0..] == s;
      PrefixOf(VarintBytes(it.tag), VarintBytes(it.length), s, 0);
      ReadAtIndex(s, 0, it.tag);
      ReadAtIndex(s, |it.tag|, it.length);
    }
  }

  // ----- all fields -----

  /** A sequence of valid fields that fit is read as these fields. */
  lemma {:induction false} ParseOfItems(schema: Schema, items: seq<Item>, pos: nat)
    requires AllValid(items) && AllFit(schema, items) && pos + |ItemsBytes(items)| < TWO_TO_THE_63
    ensures Parse(schema, ItemsBytes(items), pos) == Parsed(FieldsOf(schema, items), None)
    decreases items
  {
    hide NextField, ItemBytes, Valid, Fits, FieldOf, Parse;
    var s := ItemsBytes(items);
    if items == [] {
      ParseEmpty(schema, pos);
    } else {
      var it := items[0];
      FieldOfItem(schema, s, it, pos);
      NotEmpty(it);
      ParseUnfold(schema, s, pos);
      assert s[|ItemBytes(it)|..] == ItemsBytes(items[1..]);
      ParseOfItems(schema, items[1..], pos + |ItemBytes(it)|);
    }
  }

  lemma NotEmpty(it: Item)
    requires Valid(it)
    ensures |ItemBytes(it)| > 0
  {
  }

  /** Whatever is read without an error is a sequence of valid fields that fit. */
  lemma {:induction false} ItemsOfParse(schema: Schema, s: seq<byte>, pos: nat) returns (items: seq<Item>)
    requires Parse(schema, s, pos).error.None? && pos + |s| < TWO_TO_THE_63
    ensures AllValid(items) && AllFit(schema, items) && ItemsBytes(items) == s
    ensures Parse(schema, s, pos).fields == FieldsOf(schema, items)
    decreases |s|
  {
    hide NextField, ItemBytes, Valid, Fits, FieldOf, Parse;
    if s == [] {
      ParseEmpty(schema, pos);
      items := [];
    } else {
      ParseUnfold(schema, s, pos);
      NextFieldRange(schema, s, pos);
      var it := ItemOfField(schema, s, pos);
      var n := |ItemBytes(it)|;
      var tail := ItemsOfParse(schema, s[n..], pos + n);
      items := [it] + tail;
      assert items[1..] == tail;
      assert s == s[..n] + s[n..];
    }
  }

  /** Bytes are unknown fields throughout exactly when they are valid fields with unknown numbers. */
  lemma UnknownOnlyExactly(schema: Schema, s: seq<byte>)
    requires |s| < TWO_TO_THE_63
    ensures UnknownOnly(schema, s)
            <==> exists items ::
                   AllValid(items) && ItemsBytes(items) == s && forall it | it in items :: Num(it) > 0 && Num(it) !in schema
  {
    hide Parse, Valid, ItemBytes;
    if UnknownOnly(schema, s) {
      var items := ItemsOfParse(schema, s, 0);
      UnknownItems(schema, items);
    }
    if items :| AllValid(items) && ItemsBytes(items) == s && forall it | it in items :: Num(it) > 0 && Num(it) !in schema {
      UnknownFit(schema, items);
      ParseOfItems(schema, items, 0);
      UnknownItems(schema, items);
    }
  }

  lemma {:induction false} UnknownFit(schema: Schema, items: seq<Item>)
    requires forall it | it in items :: Num(it) > 0 && Num(it) !in schema
    ensures AllFit(schema, items)
  {
    if items != [] {
      assert items[0] in items && forall it | it in items[1..] :: it in items;
      UnknownFit(schema, items[1..]);
    }
  }

  lemma {:induction false} UnknownItems(schema: Schema, items: seq<Item>)
    requires AllFit(schema, items)
    ensures (forall f | f in FieldsOf(schema, items) :: f.UnknownField?)
            <==> forall it | it in items :: Num(it) > 0 && Num(it) !in schema
  {
    hide ItemBytes;
    if items != [] {
      UnknownItems(schema, items[1..]);
      var fs := FieldsOf(schema, items);
      assert fs[0] in fs && fs[1..] == FieldsOf(schema, items[1..]);
      assert forall f | f in fs :: f == fs[0] || f in fs[1..];
      assert forall f | f in fs[1..] :: f in fs;
      assert items[0] in items && (forall it | it in items[1..] :: it in items);
      assert forall it | it in items :: it == items[0] || it in items[1..];
    }
  }
}
