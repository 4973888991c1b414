/** Render keys: yengine/renderer/renderer.cpp, lines 597 to 639 (packing), 909 to 926 (field setup) and
    1880 to 1900 (decoding while drawing). */
module RenderKey {
  import opened Arithmetic

  const FIELD_TYPES: nat := 6
  const KEY_BITS: nat := 64
  const UINT32: nat := 0x1_0000_0000

  /** A field of the key: its width, and which of the object's values it takes. */
  datatype Field = Field(bits: nat, kind: nat)

  function Pow2(n: nat): (r: nat)
    ensures r >= 1
  {
    if n == 0 then 1 else 2 * Pow2(n - 1)
  }

  // ----- unsigned 64-bit operations -----

  function ShiftLeft(x: nat, n: nat): nat {
    Mod(Times(x, Pow2(n)), Pow2(KEY_BITS))
  }

  /** Bitwise or. */
  function Or(x: nat, y: nat): nat {
    if x == 0 && y == 0 then 0
    else 2 * Or(x / 2, y / 2) + if x % 2 == 1 || y % 2 == 1 then 1 else 0
  }

  /** Bitwise and. */
  function And(x: nat, y: nat): nat {
    if x == 0 || y == 0 then 0
    else 2 * And(x / 2, y / 2) + if x % 2 == 1 && y % 2 == 1 then 1 else 0
  }

  lemma {:induction false} OrZeroRight(x: nat)
    ensures Or(x, 0) == x
  {
    if x > 0 {
      OrZeroRight(x / 2);
    }
  }

  lemma {:induction false} TimesDouble(k: nat, m: nat)
    ensures Times(k, 2 * m) == 2 * Times(k, m)
  {
    if k > 0 {
      TimesDouble(k - 1, m);
    }
  }

  /** Setting bits below a shifted number adds them. */
  lemma {:induction false} OrDisjoint(x: nat, v: nat, n: nat)
    requires v < Pow2(n)
    ensures Or(Times(x, Pow2(n)), v) == Append(x, v, n)
    decreases n
  {
    if n == 0 {
      TimesIsProduct(x, 1);
      OrZeroRight(x);
    } else {
      TimesDouble(x, Pow2(n - 1));
      OrDisjoint(x, v / 2, n - 1);
    }
  }

  lemma AndStep(x: nat, m: nat)
    requires x > 0 && m > 0
    ensures And(x, 2 * m - 1) == 2 * And(x / 2, m - 1) + x % 2
  {
    assert (2 * m - 1) / 2 == m - 1 && (2 * m - 1) % 2 == 1;
  }

  /** Masking the low bits takes the remainder. */
  lemma {:induction false} AndMask(x: nat, n: nat)
    ensures And(x, Pow2(n) - 1) == Mod(x, Pow2(n))
    decreases n
  {
    if n == 0 {
      DivIsQuotient(x, 1);
    } else if x > 0 {
      AndMask(x / 2, n - 1);
      AndStep(x, Pow2(n - 1));
      HalfRemainder(x, Pow2(n - 1));
    }
  }

  lemma {:induction false} HalfRemainder(x: nat, m: nat)
    requires m > 0
    ensures Mod(x, 2 * m) == 2 * Mod(x / 2, m) + x % 2
  {
    if x >= 2 * m {
      HalfRemainder(x - 2 * m, m);
    }
  }

  lemma {:induction false} Pow2Add(a: nat, b: nat)
    ensures Pow2(a + b) == Times(Pow2(a), Pow2(b))
  {
    if a > 0 {
      Pow2Add(a - 1, b);
      TimesAdd(Pow2(a - 1), Pow2(a - 1), Pow2(b));
    }
  }

  lemma {:induction false} Pow2Monotone(a: nat, b: nat)
    requires a <= b
    ensures Pow2(a) <= Pow2(b)
    decreases b
  {
    if a < b {
      Pow2Monotone(a, b - 1);
    }
  }

  // ----- what a key means -----

  function TotalBits(fields: seq<Field>): nat {
    if fields == [] then 0 else TotalBits(fields[..|fields| - 1]) + fields[|fields| - 1].bits
  }

  /** The values of the fields, in field order. */
  function FieldValues(fields: seq<Field>, values: seq<nat>): (r: seq<nat>)
    requires Kinds(fields, values)
    ensures |r| == |fields| && forall i | 0 <= i < |fields| :: r[i] == values[fields[i].kind]
  {
    seq(|fields|, i requires 0 <= i < |fields| => values[fields[i].kind])
  }

  predicate Kinds(fields: seq<Field>, values: seq<nat>) {
    |values| == FIELD_TYPES && forall i | 0 <= i < |fields| :: fields[i].kind < FIELD_TYPES
  }

  /** Every field is wide enough for the object's value of its kind. */
  predicate ValuesFit(fields: seq<Field>, values: seq<nat>)
    requires Kinds(fields, values)
  {
    forall i | 0 <= i < |fields| :: values[fields[i].kind] < Pow2(fields[i].bits)
  }

  /** Every value fits its width. */
  predicate Fit(fields: seq<Field>, vs: seq<nat>) {
    |vs| == |fields| && forall i | 0 <= i < |fields| :: vs[i] < Pow2(fields[i].bits)
  }

  /** The number x with b more bits, that hold v, at its low end. */
  function Append(x: nat, v: nat, b: nat): nat {
    Times(x, Pow2(b)) + v
  }

  /** The values as the digits of one number, most significant first. */
  function Digits(fields: seq<Field>, vs: seq<nat>): nat
    requires |vs| == |fields|
  {
    if fields == [] then 0
    else
      var last := |fields| - 1;
      Append(Digits(fields[..last], vs[..last]), vs[last], fields[last].bits)
  }

  function KeyOf(fields: seq<Field>, vs: seq<nat>, index: nat): nat
    requires |vs| == |fields| && TotalBits(fields) <= KEY_BITS
  {
    Append(Digits(fields, vs), index, KEY_BITS - TotalBits(fields))
  }

  lemma AppendBound(x: nat, m: nat, v: nat, b: nat)
    requires x < m && v < b
    ensures Times(x, b) + v < Times(m, b)
  {
    TimesLess(x, m, b);
  }

  // ----- packing -----

  /** The renderer's active key fields. */
  class ActiveRenderKey {
    const fields: array<Field>
    var count: nat
    var bitsUsed: nat

    constructor ()
      ensures fresh(fields) && fields.Length == FIELD_TYPES && count == 0 && bitsUsed == 0
    {
      fields := new Field[FIELD_TYPES](_ => Field(0, 0));
      count, bitsUsed := 0, 0;
    }

    /** Copies the fields over the old ones, clears the rest, and notes how many bits they use. */
    method SetupRenderKey(newFields: seq<Field>)
      requires fields.Length == FIELD_TYPES && |newFields| < FIELD_TYPES && TotalBits(newFields) < KEY_BITS
      modifies this, fields
      ensures count == |newFields| && fields[..count] == newFields
      ensures forall i | count <= i < FIELD_TYPES :: fields[i] == Field(0, 0)
      ensures bitsUsed == TotalBits(newFields)
    {
      forall i | 0 <= i < FIELD_TYPES {
        fields[i] := Field(0, 0);
      }
      forall i | 0 <= i < |newFields| {
        fields[i] := newFields[i];
      }
      count := |newFields|;
      var bits := 0;
      for i := 0 to |newFields|
        invariant bits == TotalBits(newFields[..i])
      {
        assert newFields[..i + 1][..i] == newFields[..i];
        bits := bits + newFields[i].bits;
      }
      assert newFields[..|newFields|] == newFields;
      bitsUsed := bits;
    }
  }

  lemma {:induction false} TotalBitsPrefix(fields: seq<Field>, i: nat)
    requires i <= |fields|
    ensures TotalBits(fields[..i]) <= TotalBits(fields)
    decreases |fields| - i
  {
    if i == |fields| {
      assert fields[..i] == fields;
    } else {
      assert fields[..i + 1][..i] == fields[..i];
      TotalBitsPrefix(fields, i + 1);
    }
  }

  lemma PrefixStep(fields: seq<Field>, vs: seq<nat>, i: nat)
    requires i < |fields| == |vs|
    ensures TotalBits(fields[..i + 1]) == TotalBits(fields[..i]) + fields[i].bits <= TotalBits(fields)
    ensures Digits(fields[..i + 1], vs[..i + 1]) == Append(Digits(fields[..i], vs[..i]), vs[i], fields[i].bits)
  {
    TotalBitsPrefix(fields, i + 1);
    assert fields[..i + 1][..i] == fields[..i] && vs[..i + 1][..i] == vs[..i];
  }

  lemma AppendFits(x: nat, v: nat, b: nat, used: nat)
    requires x < Pow2(used) && used + b <= KEY_BITS && v < Pow2(b)
    ensures Append(x, v, b) < Pow2(used + b) <= Pow2(KEY_BITS)
  {
    Pow2Add(used, b);
    AppendBound(x, Pow2(used), v, Pow2(b));
    Pow2Monotone(used + b, KEY_BITS);
  }

  /** One step of the packing: no bit is lost and none overlaps. */
  lemma PackStep(x: nat, v: nat, b: nat, used: nat)
    requires x < Pow2(used) && used + b <= KEY_BITS && v < Pow2(b)
    ensures Or(ShiftLeft(x, b), v) == Append(x, v, b) < Pow2(used + b)
  {
    AppendFits(x, v, b, used);
    assert ShiftLeft(x, b) == Times(x, Pow2(b));
    OrDisjoint(x, v, b);
  }

  /** key = (key << b) | v, where `used` bits of the key are in use. */
  method AppendBits(key: nat, v: nat, b: nat, ghost used: nat) returns (key': nat)
    requires key < Pow2(used) && used + b <= KEY_BITS && v < Pow2(b)
    ensures key' == Append(key, v, b) < Pow2(used + b)
  {
    PackStep(key, v, b, used);
    key' := Or(ShiftLeft(key, b), v);
  }

  method GetRenderKey(fields: seq<Field>, values: seq<nat>, keyNum: nat) returns (key: nat)
    requires Kinds(fields, values) && ValuesFit(fields, values)
    requires TotalBits(fields) < KEY_BITS && keyNum < Pow2(KEY_BITS - TotalBits(fields))
    ensures key < Pow2(KEY_BITS) && Holds(fields, values, key, KEY_BITS - TotalBits(fields))
    ensures Mod(key, Pow2(KEY_BITS - TotalBits(fields))) == keyNum
    ensures key == KeyOf(fields, FieldValues(fields, values), keyNum)
  {
    var bitsLeft;
    key, bitsLeft := PackFields(fields, values);
    ghost var packed := key;
    key := AppendBits(key, keyNum, bitsLeft, TotalBits(fields));
    AppendShifts(packed, keyNum, bitsLeft);
    HoldsAbove(fields, values, packed, key, bitsLeft);
  }

  /** The loop over the fields. */
  method PackFields(fields: seq<Field>, values: seq<nat>) returns (key: nat, bitsLeft: nat)
    requires Kinds(fields, values) && ValuesFit(fields, values) && TotalBits(fields) < KEY_BITS
    ensures key < Pow2(TotalBits(fields)) && Holds(fields, values, key, 0)
    ensures key == Digits(fields, FieldValues(fields, values))
    ensures bitsLeft == KEY_BITS - TotalBits(fields)
  {
    ghost var vs := FieldValues(fields, values);
    key, bitsLeft := 0, KEY_BITS;
    for i := 0 to |fields|
      invariant key == Digits(fields[..i], vs[..i]) < Pow2(TotalBits(fields[..i]))
      invariant bitsLeft == KEY_BITS - TotalBits(fields[..i])
    {
      PrefixStep(fields, vs, i);
      key := AppendBits(key, values[fields[i].kind], fields[i].bits, TotalBits(fields[..i]));
      bitsLeft := bitsLeft - fields[i].bits;
    }
    assert fields[..|fields|] == fields && vs[..|fields|] == vs;
    DigitsHold(fields, values);
  }

  // ----- where the values are in the key -----

  function ShiftRight(x: nat, n: nat): nat {
    Div(x, Pow2(n))
  }

  /** The b bits of x that begin n bits from its low end. */
  function Cut(x: nat, n: nat, b: nat): nat {
    Mod(ShiftRight(x, n), Pow2(b))
  }

  /** How many bits of the fields come after field i. */
  function BitsAfter(fields: seq<Field>, i: nat): nat
    requires i < |fields|
  {
    if i == |fields| - 1 then 0 else BitsAfter(fields[..|fields| - 1], i) + fields[|fields| - 1].bits
  }

  /** Above the low n bits, every field holds the value of its own kind, the first field on top. */
  ghost predicate Holds(fields: seq<Field>, values: seq<nat>, key: nat, n: nat)
    requires Kinds(fields, values)
  {
    forall i | 0 <= i < |fields| :: Cut(key, n + BitsAfter(fields, i), fields[i].bits) == values[fields[i].kind]
  }

  lemma AppendShifts(x: nat, v: nat, b: nat)
    requires v < Pow2(b)
    ensures ShiftRight(Append(x, v, b), b) == x && Mod(Append(x, v, b), Pow2(b)) == v
  {
    AddTimes(v, x, Pow2(b));
  }

  /** Shifting twice is shifting once by the sum. */
  lemma ShiftTwice(x: nat, a: nat, b: nat)
    ensures ShiftRight(x, a + b) == ShiftRight(ShiftRight(x, b), a)
  {
    var q, r := Div(x, Pow2(b)), Mod(x, Pow2(b));
    var q', r' := Div(q, Pow2(a)), Mod(q, Pow2(a));
    DivMod(x, Pow2(b));
    DivMod(q, Pow2(a));
    Pow2Add(a, b);
    TimesAdd(Times(q', Pow2(a)), r', Pow2(b));
    TimesTimes(q', Pow2(a), Pow2(b));
    AppendBound(r', Pow2(a), r, Pow2(b));
    AddTimes(Times(r', Pow2(b)) + r, q', Pow2(a + b));
  }

  /** What a key holds above b more bits. */
  lemma HoldsAbove(fields: seq<Field>, values: seq<nat>, packed: nat, key: nat, n: nat)
    requires Kinds(fields, values) && Holds(fields, values, packed, 0) && ShiftRight(key, n) == packed
    ensures Holds(fields, values, key, n)
  {
    forall i | 0 <= i < |fields| ensures Cut(key, n + BitsAfter(fields, i), fields[i].bits) == values[fields[i].kind] {
      ShiftTwice(key, BitsAfter(fields, i), n);
      assert BitsAfter(fields, i) + n == n + BitsAfter(fields, i);
    }
  }

  lemma {:induction false} DigitsCut(fields: seq<Field>, vs: seq<nat>, i: nat)
    requires Fit(fields, vs) && i < |fields|
    ensures Cut(Digits(fields, vs), BitsAfter(fields, i), fields[i].bits) == vs[i]
    decreases |fields|
  {
    var last := |fields| - 1;
    var x, b := Digits(fields[..last], vs[..last]), fields[last].bits;
    AppendShifts(x, vs[last], b);
    if i == last {
      DivIsQuotient(Append(x, vs[last], b), 1);
    } else {
      DigitsCut(fields[..last], vs[..last], i);
      ShiftTwice(Append(x, vs[last], b), BitsAfter(fields[..last], i), b);
    }
  }

  lemma DigitsHold(fields: seq<Field>, values: seq<nat>)
    requires Kinds(fields, values) && ValuesFit(fields, values)
    ensures Holds(fields, values, Digits(fields, FieldValues(fields, values)), 0)
  {
    forall i | 0 <= i < |fields|
      ensures Cut(Digits(fields, FieldValues(fields, values)), 0 + BitsAfter(fields, i), fields[i].bits) == values[fields[i].kind]
    {
      DigitsCut(fields, FieldValues(fields, values), i);
    }
  }

  // ----- order -----

  /** Lexicographic order. */
  predicate LexLess(a: seq<nat>, b: seq<nat>)
    requires |a| == |b|
  {
    a != [] && (a[0] < b[0] || (a[0] == b[0] && LexLess(a[1..], b[1..])))
  }

  lemma {:induction false} LexSnoc(a: seq<nat>, x: nat, b: seq<nat>, y: nat)
    requires |a| == |b|
    ensures LexLess(a + [x], b + [y]) <==> LexLess(a, b) || (a == b && x < y)
    decreases |a|
  {
    if a == [] {
      assert [x][1..] == [] && [y][1..] == [];
    } else {
      assert (a + [x])[1..] == a[1..] + [x] && (b + [y])[1..] == b[1..] + [y];
      LexSnoc(a[1..], x, b[1..], y);
      assert a == [a[0]] + a[1..] && b == [b[0]] + b[1..];
    }
  }

  lemma LastSplits(a: seq<nat>)
    requires a != []
    ensures a == a[..|a| - 1] + [a[|a| - 1]]
  {
  }

  lemma AppendOrder(p: nat, x: nat, q: nat, y: nat, b: nat)
    requires x < Pow2(b) && y < Pow2(b)
    ensures Append(p, x, b) < Append(q, y, b) <==> p < q || (p == q && x < y)
    ensures Append(p, x, b) == Append(q, y, b) <==> p == q && x == y
  {
    if p < q {
      AppendBound(p, q, x, Pow2(b));
    } else if q < p {
      AppendBound(q, p, y, Pow2(b));
    }
  }

  lemma {:induction false} DigitsOrder(fields: seq<Field>, a: seq<nat>, b: seq<nat>)
    requires Fit(fields, a) && Fit(fields, b)
    ensures Digits(fields, a) < Digits(fields, b) <==> LexLess(a, b)
    ensures Digits(fields, a) == Digits(fields, b) <==> a == b
    decreases |fields|
  {
    if fields != [] {
      var last := |fields| - 1;
      DigitsOrder(fields[..last], a[..last], b[..last]);
      AppendOrder(Digits(fields[..last], a[..last]), a[last], Digits(fields[..last], b[..last]), b[last], fields[last].bits);
      LexSnoc(a[..last], a[last], b[..last], b[last]);
      LastSplits(a);
      LastSplits(b);
    }
  }

  /** Keys compare as their field values do, lexicographically in field order, and then as their indexes. */
  lemma KeyOrder(fields: seq<Field>, a: seq<nat>, i: nat, b: seq<nat>, j: nat)
    requires Fit(fields, a) && Fit(fields, b) && TotalBits(fields) < KEY_BITS
    requires i < Pow2(KEY_BITS - TotalBits(fields)) && j < Pow2(KEY_BITS - TotalBits(fields))
    ensures KeyOf(fields, a, i) < KeyOf(fields, b, j) <==> LexLess(a + [i], b + [j])
    ensures KeyOf(fields, a, i) == KeyOf(fields, b, j) <==> a == b && i == j
  {
    DigitsOrder(fields, a, b);
    AppendOrder(Digits(fields, a), i, Digits(fields, b), j, KEY_BITS - TotalBits(fields));
    LexSnoc(a, i, b, j);
  }

  /** Both keys agree above field i. */
  lemma {:induction false} SameAbove(fields: seq<Field>, a: seq<nat>, key: nat, b: seq<nat>, key': nat, n: nat, i: nat)
    requires Kinds(fields, a) && Kinds(fields, b) && i < |fields|
    requires Holds(fields, a, key, n) && Holds(fields, b, key', n)
    requires key < Pow2(n + TotalBits(fields)) && key' < Pow2(n + TotalBits(fields))
    requires forall j | 0 <= j < i :: a[fields[j].kind] == b[fields[j].kind]
    ensures var low := n + BitsAfter(fields, i) + fields[i].bits; ShiftRight(key, low) == ShiftRight(key', low)
    decreases i, 0
  {
    if i == 0 {
      AllBits(fields);
    } else {
      BitsBefore(fields, i);
      SameThrough(fields, a, key, b, key', n, i - 1);
    }
  }

  /** And in field i. */
  lemma {:induction false} SameThrough(fields: seq<Field>, a: seq<nat>, key: nat, b: seq<nat>, key': nat, n: nat, i: nat)
    requires Kinds(fields, a) && Kinds(fields, b) && i < |fields|
    requires Holds(fields, a, key, n) && Holds(fields, b, key', n)
    requires key < Pow2(n + TotalBits(fields)) && key' < Pow2(n + TotalBits(fields))
    requires forall j | 0 <= j <= i :: a[fields[j].kind] == b[fields[j].kind]
    ensures ShiftRight(key, n + BitsAfter(fields, i)) == ShiftRight(key', n + BitsAfter(fields, i))
    decreases i, 1
  {
    SameAbove(fields, a, key, b, key', n, i);
    SameBelow(key, key', n + BitsAfter(fields, i), fields[i].bits);
  }

  lemma {:induction false} AllBits(fields: seq<Field>)
    requires fields != []
    ensures BitsAfter(fields, 0) + fields[0].bits == TotalBits(fields)
    decreases |fields|
  {
    if |fields| > 1 {
      AllBits(fields[..|fields| - 1]);
    } else {
      assert TotalBits(fields[..0]) == 0;
    }
  }

  lemma {:induction false} BitsBefore(fields: seq<Field>, i: nat)
    requires 0 < i < |fields|
    ensures BitsAfter(fields, i - 1) == BitsAfter(fields, i) + fields[i].bits
    decreases |fields|
  {
    if i < |fields| - 1 {
      BitsBefore(fields[..|fields| - 1], i);
    }
  }

  /** What lies above bit n is what lies above the next b bits, followed by these. */
  lemma CutAgain(x: nat, n: nat, b: nat)
    ensures ShiftRight(x, n) == Append(ShiftRight(x, n + b), Cut(x, n, b), b)
  {
    assert n + b == b + n;
    ShiftTwice(x, b, n);
    DivMod(ShiftRight(x, n), Pow2(b));
  }

  lemma {:induction false} DivMonotone(x: nat, y: nat, n: nat)
    requires n > 0 && x <= y
    ensures Div(x, n) <= Div(y, n)
  {
    if x >= n {
      DivMonotone(x - n, y - n, n);
    }
  }

  /** One field of eight bits: its value is in the top byte of the key, and the index at the low end. */
  lemma KeyExample()
    ensures KeyOf([Field(8, 0)], [3], 1) == 3 * Pow2(56) + 1
  {
    assert TotalBits([]) == 0 && [Field(8, 0)][..0] == [] && [3][..0] == [];
    assert TotalBits([Field(8, 0)]) == 8;
    assert Digits([Field(8, 0)], [3]) == Append(0, 3, 8) == 3;
    TimesIsProduct(3, Pow2(56));
  }

  /** Keys with n bits for the index compare as the objects' values of the first kind, in field order, in which
      they differ. */
  lemma KindOrder(fields: seq<Field>, a: seq<nat>, key: nat, b: seq<nat>, key': nat, n: nat, i: nat)
    requires Kinds(fields, a) && Kinds(fields, b) && i < |fields|
    requires key < Pow2(n + TotalBits(fields)) && Holds(fields, a, key, n)
    requires key' < Pow2(n + TotalBits(fields)) && Holds(fields, b, key', n)
    requires forall j | 0 <= j < i :: a[fields[j].kind] == b[fields[j].kind]
    requires a[fields[i].kind] < b[fields[i].kind]
    ensures key < key'
  {
    SameAbove(fields, a, key, b, key', n, i);
    LessBelow(key, key', n + BitsAfter(fields, i), fields[i].bits);
  }

  /** Two numbers that agree above b bits compare as these bits do. */
  lemma LessBelow(x: nat, y: nat, n: nat, b: nat)
    requires ShiftRight(x, n + b) == ShiftRight(y, n + b) && Cut(x, n, b) < Cut(y, n, b)
    ensures x < y
  {
    CutAgain(x, n, b);
    CutAgain(y, n, b);
    if y <= x {
      DivMonotone(y, x, Pow2(n));
    }
  }

  /** If these bits agree too, what lies above bit n does. */
  lemma SameBelow(x: nat, y: nat, n: nat, b: nat)
    requires ShiftRight(x, n + b) == ShiftRight(y, n + b) && Cut(x, n, b) == Cut(y, n, b)
    ensures ShiftRight(x, n) == ShiftRight(y, n)
  {
    CutAgain(x, n, b);
    CutAgain(y, n, b);
  }

  /** Keys of objects that agree in all kinds of the fields compare as their indexes. */
  lemma IndexOrder(fields: seq<Field>, a: seq<nat>, key: nat, b: seq<nat>, key': nat, n: nat)
    requires Kinds(fields, a) && Kinds(fields, b)
    requires key < Pow2(n + TotalBits(fields)) && Holds(fields, a, key, n)
    requires key' < Pow2(n + TotalBits(fields)) && Holds(fields, b, key', n)
    requires forall i | 0 <= i < |fields| :: a[fields[i].kind] == b[fields[i].kind]
    ensures key < key' <==> Mod(key, Pow2(n)) < Mod(key', Pow2(n))
  {
    if fields == [] {
      NothingAbove(key, n);
      NothingAbove(key', n);
    } else {
      AllSame(fields, a, key, b, key', n);
    }
    SameShifted(key, key', n);
  }

  lemma AllSame(fields: seq<Field>, a: seq<nat>, key: nat, b: seq<nat>, key': nat, n: nat)
    requires Kinds(fields, a) && Kinds(fields, b) && fields != []
    requires key < Pow2(n + TotalBits(fields)) && Holds(fields, a, key, n)
    requires key' < Pow2(n + TotalBits(fields)) && Holds(fields, b, key', n)
    requires forall i | 0 <= i < |fields| :: a[fields[i].kind] == b[fields[i].kind]
    ensures ShiftRight(key, n) == ShiftRight(key', n)
  {
    var last := |fields| - 1;
    SameThrough(fields, a, key, b, key', n, last);
    calc {
      ShiftRight(key, n);
      { NothingAfter(fields, key, n); }
      ShiftRight(key, n + BitsAfter(fields, last));
      ShiftRight(key', n + BitsAfter(fields, last));
      { NothingAfter(fields, key', n); }
      ShiftRight(key', n);
    }
  }

  lemma NothingAfter(fields: seq<Field>, x: nat, n: nat)
    requires fields != []
    ensures ShiftRight(x, n + BitsAfter(fields, |fields| - 1)) == ShiftRight(x, n)
  {
    assert n + BitsAfter(fields, |fields| - 1) == n;
  }

  lemma NothingAbove(x: nat, n: nat)
    requires x < Pow2(n)
    ensures ShiftRight(x, n) == 0
  {
  }

  lemma SameShifted(x: nat, y: nat, n: nat)
    requires ShiftRight(x, n) == ShiftRight(y, n)
    ensures x < y <==> Mod(x, Pow2(n)) < Mod(y, Pow2(n))
  {
    DivMod(x, Pow2(n));
    DivMod(y, Pow2(n));
  }

  // ----- decoding -----

  /** Truncating a key to 32 bits and masking gives back its index. */
  lemma DecodeIndex(fields: seq<Field>, vs: seq<nat>, index: nat)
    requires Fit(fields, vs) && 32 < TotalBits(fields) < KEY_BITS && index < Pow2(KEY_BITS - TotalBits(fields))
    ensures And(KeyOf(fields, vs, index) % UINT32, Pow2(KEY_BITS - TotalBits(fields)) - 1) == index
  {
    var n := KEY_BITS - TotalBits(fields);
    var key := KeyOf(fields, vs, index);
    Pow2Of32();
    Pow2Add(32 - n, n);
    DivIsQuotient(key, UINT32);
    Truncate(key, Pow2(32 - n), Pow2(n));
    AddTimes(index, Digits(fields, vs), Pow2(n));
    AndMask(key % UINT32, n);
  }

  lemma Pow2Of32()
    ensures Pow2(32) == UINT32
  {
    assert Pow2(8) == 256;
    Pow2Add(8, 8);
    TimesIsProduct(256, 256);
    Pow2Add(16, 16);
    TimesIsProduct(0x1_0000, 0x1_0000);
  }

  /** The remainder of the remainder, when the first divisor is a multiple of the second. */
  lemma Truncate(x: nat, a: nat, m: nat)
    requires a > 0 && m > 0
    ensures Times(a, m) > 0 && Mod(Mod(x, Times(a, m)), m) == Mod(x, m)
  {
    var q, r := Div(x, Times(a, m)), Mod(x, Times(a, m));
    DivMod(x, Times(a, m));
    TimesTimes(q, a, m);
    AddTimes(r, Times(q, a), m);
  }

  lemma {:induction false} TimesTimes(q: nat, a: nat, m: nat)
    ensures Times(q, Times(a, m)) == Times(Times(q, a), m)
  {
    if q > 0 {
      TimesTimes(q - 1, a, m);
      TimesAdd(Times(q - 1, a), a, m);
    }
  }

  /** A render object to draw: its field values and its index. */
  datatype Draw = Draw(values: seq<nat>, index: nat)

  ghost predicate PacksOne(fields: seq<Field>, key: nat, draw: Draw) {
    && 32 < TotalBits(fields) < KEY_BITS
    && Fit(fields, draw.values) && draw.index < Pow2(KEY_BITS - TotalBits(fields))
    && key == KeyOf(fields, draw.values, draw.index)
  }

  ghost predicate Packs(fields: seq<Field>, keys: seq<nat>, draws: seq<Draw>) {
    && |keys| == |draws| && 32 < TotalBits(fields) < KEY_BITS
    && forall k | 0 <= k < |keys| :: PacksOne(fields, keys[k], draws[k])
  }

  function Without<T>(s: seq<T>, i: nat): (r: seq<T>)
    requires i < |s|
    ensures |r| == |s| - 1 && forall k | 0 <= k < |r| :: r[k] == s[if k < i then k else k + 1]
    ensures multiset(s) == multiset(r) + multiset{s[i]}
  {
    assert s == s[..i] + [s[i]] + s[i + 1..];
    s[..i] + s[i + 1..]
  }

  lemma SameRest<T>(a: seq<T>, i: nat, b: seq<T>, j: nat)
    requires i < |a| && j < |b| && a[i] == b[j] && multiset(a) == multiset(b)
    ensures multiset(Without(a, i)) == multiset(Without(b, j))
  {
    assert multiset(Without(a, i)) == multiset(a) - multiset{a[i]};
    assert multiset(Without(b, j)) == multiset(b) - multiset{b[j]};
  }

  /** Where the last of the rearranged keys comes from. */
  lemma LastComesFrom(keys': seq<nat>, keys: seq<nat>) returns (i: nat)
    requires keys != [] && multiset(keys') == multiset(keys)
    ensures |keys'| == |keys| && i < |keys| && keys[i] == keys'[|keys'| - 1]
    ensures multiset(keys'[..|keys'| - 1]) == multiset(Without(keys, i))
  {
    assert |multiset(keys')| == |keys'| && |multiset(keys)| == |keys|;
    var last := |keys'| - 1;
    assert keys'[last] in multiset(keys);
    i :| 0 <= i < |keys| && keys[i] == keys'[last];
    SameRest(keys', last, keys, i);
    assert Without(keys', last) == keys'[..last];
  }

  lemma PacksWithout(fields: seq<Field>, keys: seq<nat>, draws: seq<Draw>, i: nat)
    requires Packs(fields, keys, draws) && i < |keys|
    ensures Packs(fields, Without(keys, i), Without(draws, i)) && PacksOne(fields, keys[i], draws[i])
  {
  }

  /** However the keys are rearranged, they are the keys of the same objects, rearranged alike. */
  lemma {:induction false} Rearranged(fields: seq<Field>, keys: seq<nat>, draws: seq<Draw>, keys': seq<nat>)
      returns (draws': seq<Draw>)
    requires Packs(fields, keys, draws) && multiset(keys') == multiset(keys)
    ensures Packs(fields, keys', draws') && multiset(draws') == multiset(draws)
    decreases |keys|
  {
    if keys == [] {
      assert keys' == [] by {
        assert |multiset(keys')| == |keys'|;
      }
      draws' := draws;
    } else {
      var i := LastComesFrom(keys', keys);
      PacksWithout(fields, keys, draws, i);
      var front := Rearranged(fields, Without(keys, i), Without(draws, i), keys'[..|keys'| - 1]);
      draws' := front + [draws[i]];
      PacksSnoc(fields, keys', front, draws[i]);
    }
  }

  lemma PacksSnoc(fields: seq<Field>, keys: seq<nat>, front: seq<Draw>, draw: Draw)
    requires keys != [] && Packs(fields, keys[..|keys| - 1], front) && PacksOne(fields, keys[|keys| - 1], draw)
    ensures Packs(fields, keys, front + [draw])
  {
    forall k | 0 <= k < |keys| ensures PacksOne(fields, keys[k], (front + [draw])[k]) {
      if k < |keys| - 1 {
        assert keys[..|keys| - 1][k] == keys[k];
      }
    }
  }

  /** The objects visited, and the indexes the loop decodes for them. */
  ghost predicate Visits(visited: seq<Draw>, order: seq<nat>) {
    && |order| == |visited|
    && (forall k | 0 <= k < |order| :: order[k] == visited[k].index)
    && (forall i, j | 0 <= i < j < |visited| :: DrawnBefore(visited[i], visited[j]))
  }

  /** PrepareDraw, after std::sort has sorted the enqueued keys: the loop visits every enqueued object
      once, in the order of the field values and then of the indexes. */
  method DrawOrder(keys: array<nat>, bitsUsed: nat, ghost fields: seq<Field>, ghost enqueued: seq<nat>, ghost draws: seq<Draw>)
      returns (order: seq<nat>)
    requires Packs(fields, enqueued, draws) && bitsUsed == TotalBits(fields)
    requires multiset(keys[..]) == multiset(enqueued)
    requires forall i, j | 0 <= i < j < keys.Length :: keys[i] <= keys[j]
    ensures exists visited :: Visits(visited, order) && multiset(visited) == multiset(draws)
  {
    ghost var visited := Rearranged(fields, enqueued, draws, keys[..]);
    var mask := Pow2(KEY_BITS - bitsUsed) - 1;
    order := [];
    for k := 0 to keys.Length
      invariant |order| == k && forall l | 0 <= l < k :: order[l] == visited[l].index
    {
      assert PacksOne(fields, keys[..][k], visited[k]);
      DecodeIndex(fields, visited[k].values, visited[k].index);
      order := order + [And(keys[k] % UINT32, mask)];
    }
    SortedDraws(fields, keys[..], visited);
    assert Visits(visited, order);
  }

  /** Equal, or smaller in the values and then in the index. */
  ghost predicate DrawnBefore(a: Draw, b: Draw) {
    a == b || (|a.values| == |b.values| && LexLess(a.values + [a.index], b.values + [b.index]))
  }

  lemma SortedDraws(fields: seq<Field>, keys: seq<nat>, draws: seq<Draw>)
    requires Packs(fields, keys, draws) && forall i, j | 0 <= i < j < |keys| :: keys[i] <= keys[j]
    ensures forall i, j | 0 <= i < j < |draws| :: DrawnBefore(draws[i], draws[j])
  {
    forall i, j | 0 <= i < j < |draws| ensures DrawnBefore(draws[i], draws[j]) {
      KeyOrder(fields, draws[i].values, draws[i].index, draws[j].values, draws[j].index);
    }
  }
}
