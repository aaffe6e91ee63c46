/** Find the two values that occur once in an array whose other values occur
    twice: a quadratic counting strategy, a linear XOR strategy that splits
    the array by the lowest set bit of the XOR of everything, and a context
    object that holds the strategy in use. Values are Python's unbounded
    integers, negative ones included; `^` and `&` are the operators of
    module Bits. */
module RepeatedElements {

  import opened Seqs
  import opened Bits

  // ---------------------------------------------------------------------
  // XOR of a sequence.

  /** What `xor_result ^= num` over `s`, starting from 0, leaves. */
  function XorAll(s: seq<int>): int
    decreases |s|
  {
    if s == [] then 0 else Xor(XorAll(s[..|s| - 1]), s[|s| - 1])
  }

  lemma XorAllSnoc(s: seq<int>, x: int)
    ensures XorAll(s + [x]) == Xor(XorAll(s), x)
  {
    assert (s + [x])[..|s|] == s;
  }

  lemma {:induction false} XorAppend(a: seq<int>, b: seq<int>)
    ensures XorAll(a + b) == Xor(XorAll(a), XorAll(b))
    decreases |b|
  {
    if b == [] {
      assert a + b == a;
      XorZero(XorAll(a));
    } else {
      var init, last := b[..|b| - 1], b[|b| - 1];
      assert b == init + [last];
      assert a + b == (a + init) + [last];
      XorAllSnoc(a + init, last);
      XorAppend(a, init);
      XorAssoc(XorAll(a), XorAll(init), last);
    }
  }

  /** Taking one element out of the middle undoes its contribution. */
  lemma XorRemove(a: seq<int>, x: int, b: seq<int>)
    ensures XorAll(a + [x] + b) == Xor(XorAll(a + b), x)
  {
    XorAppend(a + [x], b);
    XorAllSnoc(a, x);
    XorAppend(a, b);
    var A, B := XorAll(a), XorAll(b);
    XorAssoc(A, x, B);
    XorComm(x, B);
    XorAssoc(A, B, x);
  }

  /** Removing one copy of `a` from a sequence. */
  lemma XorWithout(s: seq<int>, a: int) returns (rest: seq<int>)
    requires a in s
    ensures |rest| == |s| - 1
    ensures XorAll(s) == Xor(XorAll(rest), a)
    ensures forall x :: Count(rest, x) == Count(s, x) - (if x == a then 1 else 0)
  {
    var i :| 0 <= i < |s| && s[i] == a;
    assert s == s[..i] + [a] + s[i + 1..];
    rest := s[..i] + s[i + 1..];
    forall x ensures Count(rest, x) == Count(s, x) - (if x == a then 1 else 0) {
      CountRemoveAt(s[..i], a, s[i + 1..], x);
    }
    XorRemove(s[..i], a, s[i + 1..]);
  }

  /** When every value occurs an even number of times, everything cancels. */
  lemma {:induction false} XorEvenZero(s: seq<int>)
    requires forall x :: Count(s, x) % 2 == 0
    ensures XorAll(s) == 0
    decreases |s|
  {
    if s != [] {
      var n := |s| - 1;
      var x := s[n];
      var init := s[..n];
      assert s == init + [x];
      CountSnoc(init, x, x);
      var rest := XorWithout(init, x);
      forall y ensures Count(rest, y) % 2 == 0 {
        CountSnoc(init, x, y);
      }
      XorEvenZero(rest);
      XorAllSnoc(init, x);
      XorAssoc(0, x, x);
      XorSelf(x);
      XorZero(0);
    }
  }

  /** When `a` occurs once and everything else an even number of times, the
      XOR of all is `a`. */
  lemma XorOneOdd(s: seq<int>, a: int)
    requires Count(s, a) == 1
    requires forall x :: x != a ==> Count(s, x) % 2 == 0
    ensures XorAll(s) == a
  {
    var rest := XorWithout(s, a);
    XorEvenZero(rest);
    XorComm(0, a);
    XorZero(a);
  }

  /** The statement of the puzzle: `a` and `b` occur once, every other value
      of the array twice. */
  predicate TwoSingletons(s: seq<int>, a: int, b: int) {
    a != b && Count(s, a) == 1 && Count(s, b) == 1 &&
    forall x :: x in s && x != a && x != b ==> Count(s, x) == 2
  }

  /** The first loop of the linear strategy yields the XOR of the two singletons. */
  lemma XorOfTwoSingletons(s: seq<int>, a: int, b: int)
    requires TwoSingletons(s, a, b)
    ensures XorAll(s) == Xor(a, b)
  {
    var rest := XorWithout(s, a);
    forall x | x != b ensures Count(rest, x) % 2 == 0 {
      if x in s && x != a {
        assert Count(s, x) == 2;
      }
    }
    XorOneOdd(rest, b);
    XorComm(b, a);
  }

  // ---------------------------------------------------------------------
  // The lowest set bit.

  /** `xor_result & -xor_result`. */
  function LowBit(x: int): int {
    And(x, -x)
  }

  /** XOR-ing equal values, and only those, gives 0. */
  lemma XorZeroIff(a: int, b: int)
    ensures Xor(a, b) == 0 <==> a == b
  {
    XorSelf(a);
    XorAssoc(a, b, b);
    XorSelf(b);
    XorZero(a);
    XorComm(0, b);
    XorZero(b);
  }

  /** The lowest set bit of `a ^ b` is set in exactly one of `a` and `b`. */
  lemma BitSplits(a: int, b: int)
    requires a != b
    ensures (And(a, LowBit(Xor(a, b))) != 0) != (And(b, LowBit(Xor(a, b))) != 0)
  {
    XorZeroIff(a, b);
    var x := Xor(a, b);
    var k := TrailingZeros(x);
    LowestSetBit(x);
    BitXor(a, b, k);
    AndPow2(a, k);
    AndPow2(b, k);
  }

  /** The group test of the second loop: `num & rightmost_set_bit`. */
  function HasBit(bit: int): int -> bool {
    (x: int) => And(x, bit) != 0
  }

  function LacksBit(bit: int): int -> bool {
    (x: int) => And(x, bit) == 0
  }

  /** Each group holds exactly one of the singletons and both copies of every
      other value, so its XOR is that singleton. */
  lemma GroupIsSingleton(s: seq<int>, a: int, b: int, keep: int -> bool)
    requires TwoSingletons(s, a, b)
    requires keep(a) && !keep(b)
    ensures XorAll(Filter(keep, s)) == a
  {
    var g := Filter(keep, s);
    forall x ensures Count(g, x) == if keep(x) then Count(s, x) else 0 {
      FilterCount(keep, s, x);
    }
    forall x | x != a ensures Count(g, x) % 2 == 0 {
      if x in s && x != b && keep(x) {
        assert Count(s, x) == 2;
      }
    }
    XorOneOdd(g, a);
  }

  /** Appending a value adds it to the XOR of the group its bit selects. */
  lemma SplitSnoc(bit: int, s: seq<int>, x: int)
    ensures XorAll(Filter(HasBit(bit), s + [x])) ==
      if And(x, bit) != 0 then Xor(XorAll(Filter(HasBit(bit), s)), x) else XorAll(Filter(HasBit(bit), s))
    ensures XorAll(Filter(LacksBit(bit), s + [x])) ==
      if And(x, bit) == 0 then Xor(XorAll(Filter(LacksBit(bit), s)), x) else XorAll(Filter(LacksBit(bit), s))
  {
    var ones, zeros := Filter(HasBit(bit), s), Filter(LacksBit(bit), s);
    FilterSnoc(HasBit(bit), s, x);
    FilterSnoc(LacksBit(bit), s, x);
    if And(x, bit) != 0 {
      XorAllSnoc(ones, x);
      assert zeros + [] == zeros;
    } else {
      XorAllSnoc(zeros, x);
      assert ones + [] == ones;
    }
  }

  /** The two accumulators of the second loop of the linear strategy: `num`
      goes to the first when it has `bit`, to the second otherwise. */
  function GroupXors(bit: int, s: seq<int>): (int, int)
    decreases |s|
  {
    if s == [] then (0, 0)
    else
      var (g1, g0) := GroupXors(bit, s[..|s| - 1]);
      var x := s[|s| - 1];
      if And(x, bit) != 0 then (Xor(g1, x), g0) else (g1, Xor(g0, x))
  }

  /** The accumulators hold the XORs of the two groups of the array. */
  lemma {:induction false} GroupXorsFilter(bit: int, s: seq<int>)
    ensures GroupXors(bit, s) == (XorAll(Filter(HasBit(bit), s)), XorAll(Filter(LacksBit(bit), s)))
    decreases |s|
  {
    if s != [] {
      var init, x := s[..|s| - 1], s[|s| - 1];
      assert s == init + [x];
      GroupXorsFilter(bit, init);
      SplitSnoc(bit, init, x);
    }
  }

  /** Splitting the array into the two groups loses nothing: the XORs of the
      groups XOR to the XOR of the whole array. */
  lemma {:induction false} XorSplit(bit: int, s: seq<int>)
    ensures Xor(XorAll(Filter(HasBit(bit), s)), XorAll(Filter(LacksBit(bit), s))) == XorAll(s)
    decreases |s|
  {
    if s != [] {
      var init, x := s[..|s| - 1], s[|s| - 1];
      assert s == init + [x];
      XorSplit(bit, init);
      SplitSnoc(bit, init, x);
      XorAllSnoc(init, x);
      var g1, g0 := XorAll(Filter(HasBit(bit), init)), XorAll(Filter(LacksBit(bit), init));
      if And(x, bit) != 0 {
        XorAssoc(g1, x, g0);
        XorComm(x, g0);
        XorAssoc(g1, g0, x);
      } else {
        XorAssoc(g1, g0, x);
      }
    }
  }

  /** Both copies of a paired value fall in the same group and the two
      singletons in different ones, so the groups XOR to the singletons. */
  lemma GroupsAreSingletons(s: seq<int>, a: int, b: int)
    requires TwoSingletons(s, a, b) && And(a, LowBit(Xor(a, b))) != 0
    ensures XorAll(Filter(HasBit(LowBit(XorAll(s))), s)) == a
    ensures XorAll(Filter(LacksBit(LowBit(XorAll(s))), s)) == b
  {
    XorOfTwoSingletons(s, a, b);
    var bit := LowBit(Xor(a, b));
    BitSplits(a, b);
    assert HasBit(bit)(a) && !HasBit(bit)(b);
    GroupIsSingleton(s, a, b, HasBit(bit));
    assert TwoSingletons(s, b, a);
    assert LacksBit(bit)(b) && !LacksBit(bit)(a);
    GroupIsSingleton(s, b, a, LacksBit(bit));
  }

  /** What the two group XORs of the linear strategy amount to. */
  lemma GroupsResult(s: seq<int>, num1: int, num2: int)
    requires num1 == XorAll(Filter(HasBit(LowBit(XorAll(s))), s))
    requires num2 == XorAll(Filter(LacksBit(LowBit(XorAll(s))), s))
    ensures Xor(num1, num2) == XorAll(s)
    ensures forall a, b :: TwoSingletons(s, a, b) && And(a, LowBit(Xor(a, b))) != 0 ==> num1 == a && num2 == b
  {
    XorSplit(LowBit(XorAll(s)), s);
    forall a, b | TwoSingletons(s, a, b) && And(a, LowBit(Xor(a, b))) != 0 ensures num1 == a && num2 == b {
      GroupsAreSingletons(s, a, b);
    }
  }

  /** What the second loop of the linear strategy leaves in its two
      accumulators. */
  lemma SplitOutcome(s: seq<int>, num1: int, num2: int)
    requires (num1, num2) == GroupXors(LowBit(XorAll(s)), s)
    ensures Xor(num1, num2) == XorAll(s)
    ensures forall a, b :: TwoSingletons(s, a, b) && And(a, LowBit(Xor(a, b))) != 0 ==> num1 == a && num2 == b
  {
    GroupXorsFilter(LowBit(XorAll(s)), s);
    GroupsResult(s, num1, num2);
  }

  // ---------------------------------------------------------------------
  // The strategies.

  /** A set without members is the empty set. */
  lemma NoMemberEmpty(s: set<int>)
    ensures (forall x :: x !in s) ==> s == {}
  {
    if forall x :: x !in s {
      assert forall x :: x in s <==> x in {};
    }
  }

  /** `RegularStrategy.extract_elements`: for every distinct value, count its
      occurrences and keep it when the count is 1. The set is visited in an
      unspecified order. */
  method RegularStrategy(numbers: seq<int>) returns (r: seq<int>)
    ensures Distinct(r)
    ensures forall x :: x in r <==> Count(numbers, x) == 1
  {
    var unique := set x | x in numbers;
    var remaining := unique;
    r := [];
    while remaining != {}
      invariant remaining <= unique
      invariant Distinct(r)
      invariant forall x :: x in r <==> x in unique && x !in remaining && Count(numbers, x) == 1
      decreases |remaining|
    {
      NoMemberEmpty(remaining);
      var number :| number in remaining;
      var count := 0;
      for i := 0 to |numbers|
        invariant count == Count(numbers[..i], number)
      {
        assert numbers[..i + 1] == numbers[..i] + [numbers[i]];
        if number == numbers[i] {
          count := count + 1;
        }
      }
      assert numbers[..|numbers|] == numbers;
      if count == 1 {
        r := r + [number];
      }
      remaining := remaining - {number};
    }
  }

  /** `LinearStrategy.extract_elements`. Whatever the array, the two results
      XOR to the XOR of the whole array; for an array of the promised shape
      they are its two singletons, the one with the split bit first. */
  method LinearStrategy(numbers: seq<int>) returns (r: seq<int>)
    ensures |r| == 2
    ensures Xor(r[0], r[1]) == XorAll(numbers)
    ensures forall a, b :: TwoSingletons(numbers, a, b) && And(a, LowBit(Xor(a, b))) != 0 ==> r == [a, b]
  {
    var xorResult: int := 0;
    for i := 0 to |numbers|
      invariant xorResult == XorAll(numbers[..i])
    {
      XorAllSnoc(numbers[..i], numbers[i]);
      assert numbers[..i + 1] == numbers[..i] + [numbers[i]];
      xorResult := Xor(xorResult, numbers[i]);
    }
    assert numbers[..|numbers|] == numbers;
    var rightmostSetBit := And(xorResult, -xorResult);
    var num1: int, num2: int := 0, 0;
    for i := 0 to |numbers|
      invariant (num1, num2) == GroupXors(rightmostSetBit, numbers[..i])
    {
      var num := numbers[i];
      assert numbers[..i + 1][..i] == numbers[..i];
      if And(num, rightmostSetBit) != 0 {
        num1 := Xor(num1, num);
      } else {
        num2 := Xor(num2, num);
      }
    }
    assert numbers[..|numbers|] == numbers;
    SplitOutcome(numbers, num1, num2);
    r := [num1, num2];
  }

  // ---------------------------------------------------------------------
  // The context.

  /** The strategy objects, told apart by their class. */
  datatype Strategy = Regular | Linear

  /** `Context`: holds the strategy that `extract_elements` delegates to. */
  class Context {
    var strategy: Strategy

    constructor (strategy: Strategy)
      ensures this.strategy == strategy
    {
      this.strategy := strategy;
    }

    method SetStrategy(strategy: Strategy)
      modifies this
      ensures this.strategy == strategy
    {
      this.strategy := strategy;
    }

    /** Runs the current strategy; the result is that strategy's. */
    method ExtractElements(numbers: seq<int>) returns (r: seq<int>)
      ensures strategy == Regular ==> Distinct(r) && forall x :: x in r <==> Count(numbers, x) == 1
      ensures strategy == Linear ==> |r| == 2 && Xor(r[0], r[1]) == XorAll(numbers)
      ensures strategy == Linear ==>
        forall a, b :: TwoSingletons(numbers, a, b) && And(a, LowBit(Xor(a, b))) != 0 ==> r == [a, b]
    {
      match strategy {
        case Regular =>
          r := RegularStrategy(numbers);
        case Linear =>
          r := LinearStrategy(numbers);
      }
    }
  }

  function DemoData(): seq<int> {
    [2, 4, 6, 8, 10, 2, 6, 10]
  }

  function DemoCount(x: int): nat {
    if x == 2 || x == 6 || x == 10 then 2 else if x == 4 || x == 8 then 1 else 0
  }

  lemma DemoCounts(x: int)
    ensures Count(DemoData(), x) == DemoCount(x)
  {
    var data := DemoData();
    assert data[..0] == [];
    CountPrefix(data, 0, x);
    CountPrefix(data, 1, x);
    CountPrefix(data, 2, x);
    CountPrefix(data, 3, x);
    CountPrefix(data, 4, x);
    CountPrefix(data, 5, x);
    CountPrefix(data, 6, x);
    CountPrefix(data, 7, x);
    assert data[..8] == data;
  }

  /** The demonstration array has the promised shape, with 4 and 8 as its singletons. */
  lemma DemoShape()
    ensures TwoSingletons(DemoData(), 4, 8)
    ensures forall x :: Count(DemoData(), x) == 1 <==> x == 4 || x == 8
  {
    forall x ensures Count(DemoData(), x) == DemoCount(x) {
      DemoCounts(x);
    }
  }

  /** `4 ^ 8` is 12, whose lowest set bit 4 is a bit of 4. */
  lemma DemoSplitBit()
    ensures And(4, LowBit(Xor(4, 8))) != 0
  {
    assert Xor(0, 1) == 1;
    assert Xor(1, 2) == 3;
    assert Xor(2, 4) == 6;
    assert Xor(4, 8) == 12;
    LowestSetBit(12);
    assert TrailingZeros(3) == 0;
    assert TrailingZeros(6) == 1;
    assert TrailingZeros(12) == 2;
    AndPow2(4, 2);
    assert Bit(4, 2) == Bit(1, 0);
  }

  /** The demonstration: both strategies find 4 and 8; the linear one puts 4,
      which has the split bit, first. */
  method Demo() returns (regular: seq<int>, linear: seq<int>)
    ensures (set x | x in regular) == {4, 8}
    ensures linear == [4, 8]
  {
    var data := DemoData();
    DemoShape();
    DemoSplitBit();
    var context := new Context(Regular);
    regular := context.ExtractElements(data);
    context.SetStrategy(Linear);
    linear := context.ExtractElements(data);
  }
}
