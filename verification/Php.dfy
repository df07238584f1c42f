/** The few parts of PHP that the AppKit code leans on: values that are compared strictly
    and loosely, decimal text of integers, and arrays that keep their keys. */
module Php {

  datatype Option<+T> = None | Some(value: T)

  /** A property value. Strict comparison (`===`) is equality of this datatype,
      so the integer 1 and the string "1" are different. */
  datatype Value = Null | Int(n: int) | Str(s: string)

  // ----- division -----

  lemma Divide(a: int, c: int, b: int)
    requires c > 0 && 0 <= b < c
    ensures (a * c + b) / c == a && (a * c + b) % c == b
  {
    var q, r := (a * c + b) / c, (a * c + b) % c;
    assert q * c + r == a * c + b;
    assert q < a ==> (q + 1) * c <= a * c;
    assert q > a ==> (a + 1) * c <= q * c;
  }

  // ----- decimal text -----

  function Digit(d: nat): (c: char)
    requires d < 10
  {
    "0123456789"[d]
  }

  function DecNat(n: nat): (s: string)
    ensures |s| > 0
    ensures '-' !in s
  {
    if n < 10 then [Digit(n)] else DecNat(n / 10) + [Digit(n % 10)]
  }

  function Dec(n: int): (s: string)
  {
    if n < 0 then "-" + DecNat(-n) else DecNat(n)
  }

  function DigitValue(c: char): (d: int)
  {
    if '0' <= c <= '9' then c as int - '0' as int else 0
  }

  function NatOf(s: string): (n: int)
  {
    if s == [] then 0 else 10 * NatOf(s[..|s| - 1]) + DigitValue(s[|s| - 1])
  }

  lemma {:induction false} NatOfDecNat(n: nat)
    ensures NatOf(DecNat(n)) == n
  {
    if n >= 10 {
      NatOfDecNat(n / 10);
      assert DecNat(n)[..|DecNat(n)| - 1] == DecNat(n / 10);
    }
  }

  /** The integer a value stands for in arithmetic and in loose comparison with an integer. */
  function Num(v: Value): (n: int)
  {
    match v
    case Null => 0
    case Int(n) => n
    case Str(s) => if s != [] && s[0] == '-' then -NatOf(s[1..]) else NatOf(s)
  }

  /** String conversion, as done when a value is written into a page. */
  function Text(v: Value): (s: string)
  {
    match v
    case Null => ""
    case Int(n) => Dec(n)
    case Str(s) => s
  }

  lemma DashlessNum(s: string)
    requires '-' !in s
    ensures Num(Str(s)) == NatOf(s) && Num(Str("-" + s)) == -NatOf(s)
  {
    assert ("-" + s)[1..] == s;
    if s != [] {
      assert s[0] in s;
    }
  }

  /** An integer survives being written into a page and read back as a string. */
  lemma NumOfDec(n: int)
    ensures Num(Str(Dec(n))) == n
  {
    var m := if n < 0 then -n else n;
    NatOfDecNat(m);
    DashlessNum(DecNat(m));
  }

  lemma NumSurvivesText(v: Value)
    ensures Num(Str(Text(v))) == Num(v)
  {
    if v.Int? {
      NumOfDec(v.n);
    }
  }

  lemma DecInjective(m: int, n: int)
    requires Dec(m) == Dec(n)
    ensures m == n
  {
    NumOfDec(m);
    NumOfDec(n);
  }

  /** The integer key a value selects in an array: integers, and strings that are
      exactly the decimal text of an integer. */
  function KeyOf(v: Value): (k: Option<int>)
  {
    match v
    case Null => None
    case Int(n) => Some(n)
    case Str(s) => if s == Dec(Num(v)) then Some(Num(v)) else None
  }

  lemma KeySurvivesText(v: Value)
    ensures KeyOf(Str(Text(v))) == KeyOf(v)
  {
    match v
    case Null => NatOfDecNat(0);
    case Int(n) => NumOfDec(n);
    case Str(s) =>
  }

  /** Exactly the decimal text of an integer is its key; null is none. */
  lemma KeyOfText(s: string, n: int)
    ensures KeyOf(Str(s)) == Some(n) <==> s == Dec(n)
    ensures KeyOf(Null) == None && KeyOf(Int(n)) == Some(n)
  {
    NumOfDec(n);
  }

  // ----- arrays that keep their keys -----

  /** An array filled by `[]=` and thinned by `unset`: removing an element leaves a hole
      in the keys, and the next append uses a key never used before. */
  datatype PhpArray<T> = PhpArray(keys: seq<nat>, vals: seq<T>, nextKey: nat) {

    ghost predicate Valid() {
      && |keys| == |vals|
      && (forall i :: 0 <= i < |keys| ==> keys[i] < nextKey)
      && (forall i, j :: 0 <= i < j < |keys| ==> keys[i] < keys[j])
    }

    function Append(x: T): (a: PhpArray<T>)
      requires Valid()
      ensures a.Valid() && a.vals == vals + [x] && a.keys[|keys|] == nextKey && (Dense() ==> a.Dense())
    {
      PhpArray(keys + [nextKey], vals + [x], nextKey + 1)
    }

    /** `unset` of the element at position `i` */
    function Unset(i: nat): (a: PhpArray<T>)
      requires Valid() && i < |vals|
      ensures a.Valid() && a.vals == vals[..i] + vals[i + 1..]
    {
      PhpArray(keys[..i] + keys[i + 1..], vals[..i] + vals[i + 1..], nextKey)
    }

    /** Nothing was ever removed: keys are positions. */
    ghost predicate Dense() {
      Valid() && nextKey == |vals|
    }
  }

  function EmptyArray<T>(): (a: PhpArray<T>)
    ensures a.Dense()
  {
    PhpArray([], [], 0)
  }

  function PositionOf(keys: seq<nat>, k: nat): (r: Option<nat>)
    ensures r.Some? ==> r.value < |keys| && keys[r.value] == k
    ensures r.None? ==> k !in keys
  {
    if keys == [] then None
    else if keys[0] == k then Some(0)
    else match PositionOf(keys[1..], k)
      case None => None
      case Some(i) => Some(i + 1)
  }

  /** Reading `$a[k]`: null when there is no such key. */
  function Get<T>(a: PhpArray<T>, k: nat): (r: Option<T>)
    requires a.Valid()
    ensures r.Some? <==> k in a.keys
    ensures r.Some? ==> r.value in a.vals
  {
    match PositionOf(a.keys, k)
    case None => None
    case Some(i) => Some(a.vals[i])
  }

  lemma {:induction false} DenseKeysFrom<T>(a: PhpArray<T>, i: nat)
    requires a.Dense() && i < |a.vals|
    ensures a.keys[i] >= i
  {
    if i > 0 {
      DenseKeysFrom(a, i - 1);
    }
  }

  lemma {:induction false} DenseKeysUpTo<T>(a: PhpArray<T>, i: nat)
    requires a.Dense() && i < |a.vals|
    ensures a.keys[i] == i
    decreases |a.vals| - i
  {
    DenseKeysFrom(a, i);
    if i + 1 < |a.vals| {
      DenseKeysUpTo(a, i + 1);
    }
  }

  /** `array_search`: the first position of an element. */
  function IndexOf<T(==)>(s: seq<T>, x: T): (i: nat)
    requires x in s
    ensures i < |s| && s[i] == x
  {
    if s[0] == x then 0 else 1 + IndexOf(s[1..], x)
  }

  /** The element under key 0 is removed, if there is one, and another is appended: that one is
      under key 0 only if the array never held anything. */
  lemma FirstKeyIsNotReused<T>(a: PhpArray<T>, x: T)
    requires a.Valid() && forall i, j :: 0 <= i < j < |a.vals| ==> a.vals[i] != a.vals[j]
    ensures var first := Get(a, 0);
            var b := if first.Some? then a.Unset(IndexOf(a.vals, first.value)) else a;
            b.nextKey == a.nextKey && Get(b, 0).None? && Get(b.Append(x), 0) == if a.nextKey == 0 then Some(x) else None
  {
    var first := Get(a, 0);
    if first.Some? {
      var p, i := PositionOf(a.keys, 0).value, IndexOf(a.vals, first.value);
      assert a.vals[p] == a.vals[i] && p == i && p == 0;
      var b := a.Unset(i);
      assert b.keys == a.keys[1..];
      assert 0 !in b.keys;
      assert 0 !in b.Append(x).keys;
    } else {
      var c := a.Append(x);
      if a.nextKey == 0 {
        assert a.keys == [];
        assert c.keys == [0] && c.vals == [x];
      } else {
        assert 0 !in c.keys;
      }
    }
  }

  lemma UnsetDrops<T>(a: PhpArray<T>, x: T)
    requires a.Valid() && x in a.vals && forall i, j :: 0 <= i < j < |a.vals| ==> a.vals[i] != a.vals[j]
    ensures x !in a.Unset(IndexOf(a.vals, x)).vals
  {
  }
}
