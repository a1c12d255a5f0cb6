/**
 * `Tuple`: an immutable list of nullable elements. An element is null, an
 * atom (a Java object other than a tuple: its value and its `hashCode()`,
 * read as the unsigned number its 32 bits spell; equal objects hash alike,
 * so two atoms are equal when both agree) or a nested tuple together with
 * the identity of that tuple object, which `==` on references compares.
 * `NullTuple` is the class of the unique empty tuple `Tuple.EMPTY`; every
 * other tuple is backed by a list.
 */
module Tuple {
  import opened Wrappers

  datatype Element = Null | Atom(value: int, hash: nat) | Nested(tuple: Tuple, ref: nat)

  datatype Tuple = NullTuple | ListTuple(items: seq<Element>)
  {
    /** The element list: a `NullTuple` is built from a null array and holds none. */
    function Elements(): seq<Element>
    {
      if NullTuple? then [] else items
    }
  }

  /** `Tuple.of(elements)`: a null or zero-length array gives no elements. */
  function Of(arr: Option<seq<Element>>): (r: Tuple)
    ensures r.ListTuple?
    ensures arr.None? ==> r.Elements() == []
    ensures arr.Some? ==> r.Elements() == arr.value
  {
    ListTuple(if arr.None? || |arr.value| < 1 then [] else arr.value)
  }

  /** The low bit in which two numbers differ: 1 when exactly one of them is odd. */
  function BitDiff(a: nat, b: nat): nat
  {
    if a % 2 == b % 2 then 0 else 1
  }

  /** Bitwise exclusive or of the binary representations, Java's `^` on hash codes. */
  function Xor(a: nat, b: nat): nat
    decreases a + b
  {
    if a == 0 then b
    else if b == 0 then a
    else 2 * Xor(a / 2, b / 2) + BitDiff(a, b)
  }

  /** Every exclusive or splits into its high bits and its low bit. */
  lemma XorSplit(a: nat, b: nat)
    ensures Xor(a, b) == 2 * Xor(a / 2, b / 2) + BitDiff(a, b)
    ensures Xor(a, b) / 2 == Xor(a / 2, b / 2) && Xor(a, b) % 2 == BitDiff(a, b)
  {
    if a == 0 {
      assert Xor(a / 2, b / 2) == b / 2;
    } else if b == 0 {
      assert Xor(a / 2, b / 2) == a / 2;
    }
  }

  /** Zero is the identity of exclusive or. */
  lemma XorZero(a: nat)
    ensures Xor(a, 0) == a && Xor(0, a) == a
  {
  }

  /** Exclusive or is associative. */
  lemma {:induction false} XorAssociative(a: nat, b: nat, c: nat)
    ensures Xor(Xor(a, b), c) == Xor(a, Xor(b, c))
    decreases a + b + c
  {
    if a == 0 || b == 0 || c == 0 {
      XorZero(a);
      XorZero(b);
      XorZero(c);
      XorZero(Xor(a, b));
      XorZero(Xor(b, c));
    } else {
      XorAssociative(a / 2, b / 2, c / 2);
      XorSplit(a, b);
      XorSplit(b, c);
      XorSplit(Xor(a, b), c);
      XorSplit(a, Xor(b, c));
    }
  }

  /** Exclusive or is commutative. */
  lemma {:induction false} XorCommutative(a: nat, b: nat)
    ensures Xor(a, b) == Xor(b, a)
    decreases a + b
  {
    if a != 0 && b != 0 {
      XorCommutative(a / 2, b / 2);
    }
  }

  /** `hashCode()` of an element, 0 for null; a nested tuple answers with its own hash code. */
  function ElementHash(e: Element): nat
    decreases e
  {
    match e
    case Null => 0
    case Atom(_, h) => h
    case Nested(NullTuple, _) => 0
    case Nested(ListTuple(items), _) => XorHash(items)
  }

  /** The XOR of the hash codes of the non-null elements. */
  function XorHash(s: seq<Element>): nat
    decreases s
  {
    if |s| == 0 then 0
    else if s[|s| - 1] == Null then XorHash(s[..|s| - 1])
    else Xor(XorHash(s[..|s| - 1]), ElementHash(s[|s| - 1]))
  }

  /** The hash of a concatenation is the XOR of the hashes of its parts. */
  lemma {:induction false} XorHashAppend(s: seq<Element>, t: seq<Element>)
    ensures XorHash(s + t) == Xor(XorHash(s), XorHash(t))
    decreases |t|
  {
    if |t| == 0 {
      assert s + t == s;
    } else {
      var u, e := t[..|t| - 1], t[|t| - 1];
      XorHashAppend(s, u);
      assert t == u + [e];
      assert s + t == (s + u) + [e];
      if e == Null {
        XorHashSnocNull(s + u, e);
        XorHashSnocNull(u, e);
      } else {
        XorHashSnoc(s + u, e);
        XorHashSnoc(u, e);
        XorAssociative(XorHash(s), XorHash(u), ElementHash(e));
      }
    }
  }

  /** Appending a null element leaves the hash alone. */
  lemma XorHashSnocNull(s: seq<Element>, e: Element)
    requires e == Null
    ensures XorHash(s + [e]) == XorHash(s)
  {
    assert (s + [e])[..|s|] == s;
  }

  /** Appending a non-null element XORs in its hash. */
  lemma XorHashSnoc(s: seq<Element>, e: Element)
    requires e != Null
    ensures XorHash(s + [e]) == Xor(XorHash(s), ElementHash(e))
  {
    assert (s + [e])[..|s|] == s;
  }

  /** XOR associates. */

  /** Extending a prefix by a non-null element XORs in that element's hash; a null one changes nothing. */
  lemma {:induction false} XorHashPrefix(s: seq<Element>, i: nat)
    requires i < |s|
    ensures s[i] == Null ==> XorHash(s[..i + 1]) == XorHash(s[..i])
    ensures s[i] != Null ==> XorHash(s[..i + 1]) == Xor(XorHash(s[..i]), ElementHash(s[i]))
  {
    assert s[..i + 1][..i] == s[..i];
  }

  /** The hash code ignores element order: swapping two halves leaves it unchanged. */
  lemma {:induction false} XorHashSwap(s: seq<Element>, t: seq<Element>)
    ensures XorHash(s + t) == XorHash(t + s)
  {
    XorHashAppend(s, t);
    XorHashAppend(t, s);
    XorCommutative(XorHash(s), XorHash(t));
  }

  /** `hashCode()`, fixed at construction. */
  function HashCode(t: Tuple): nat
  {
    XorHash(t.Elements())
  }

  /** `calculateHashCode`: the loop over the elements, skipping nulls. */
  method CalculateHashCode(t: Tuple) returns (total: nat)
    ensures total == HashCode(t)
  {
    var elements := t.Elements();
    total := 0;
    var i := 0;
    while i < |elements|
      invariant 0 <= i <= |elements|
      invariant total == XorHash(elements[..i])
    {
      var element := elements[i];
      XorHashPrefix(elements, i);
      if element != Null {
        total := Xor(total, ElementHash(element));
      }
      i := i + 1;
    }
    assert elements[..i] == elements;
  }

  /** `get(index)` as written: the guard `index > 0` turns index 0 away. */
  function GetAsWritten(t: Tuple, index: int): (r: Outcome<Element>)
    ensures r.Returned? <==> 0 < index < |t.Elements()|
    ensures r.Returned? ==> r.value == t.Elements()[index]
    ensures r.Threw? ==> r.error == IllegalArgument
  {
    if 0 < index < |t.Elements()| then Returned(t.Elements()[index]) else Threw(IllegalArgument)
  }

  /** `get(index)` with the guard its own message describes: indexes start at 0. */
  function Get(t: Tuple, index: int): (r: Outcome<Element>)
    ensures r.Returned? <==> 0 <= index < |t.Elements()|
    ensures r.Returned? ==> r.value == t.Elements()[index]
    ensures r.Threw? ==> r.error == IllegalArgument
  {
    if 0 <= index < |t.Elements()| then Returned(t.Elements()[index]) else Threw(IllegalArgument)
  }

  /** The first element of a one-element tuple cannot be read as written. */
  lemma GetAsWrittenRejectsFirst()
    ensures GetAsWritten(Of(Some([Atom(7, 7)])), 0) == Threw(IllegalArgument)
    ensures Get(Of(Some([Atom(7, 7)])), 0) == Returned(Atom(7, 7))
  {
  }

  /** The upward scan of `indexOf` as written, from `index`, reading through `get`. */
  function ScanUpAsWritten(t: Tuple, x: Element, index: nat): Outcome<int>
    decreases |t.Elements()| - index
  {
    if index >= |t.Elements()| then Returned(-1)
    else match GetAsWritten(t, index)
      case Threw(e) => Threw(e)
      case Returned(v) =>
        match ElemEqAsWritten(v, x)
        case Threw(e) => Threw(e)
        case Returned(same) => if same then Returned(index) else ScanUpAsWritten(t, x, index + 1)
  }

  /** `indexOf` as written: -1 on an empty tuple, and an exception on every other, whatever it looks for. */
  function IndexOfAsWritten(t: Tuple, x: Element): (r: Outcome<int>)
    ensures |t.Elements()| == 0 ==> r == Returned(-1)
    ensures |t.Elements()| > 0 ==> r == Threw(IllegalArgument)
  {
    ScanUpAsWritten(t, x, 0)
  }

  /** `indexOf` as written cannot find the element a one-element tuple holds: its first read is index 0. */
  lemma IndexOfAsWrittenFails()
    ensures IndexOfAsWritten(Of(Some([Atom(7, 7)])), Atom(7, 7)) == Threw(IllegalArgument)
  {
  }

  /** `indexOf`: the first position holding an element equal to the argument, or -1. */
  method IndexOf(t: Tuple, x: Element) returns (r: int)
    ensures -1 <= r < |t.Elements()|
    ensures r == -1 <==> forall i :: 0 <= i < |t.Elements()| ==> !ElemEq(t.Elements()[i], x)
    ensures r >= 0 ==> ElemEq(t.Elements()[r], x) && forall i :: 0 <= i < r ==> !ElemEq(t.Elements()[i], x)
  {
    var elements := t.Elements();
    var index := 0;
    while index < |elements|
      invariant 0 <= index <= |elements|
      invariant forall i :: 0 <= i < index ==> !ElemEq(elements[i], x)
    {
      var e := Get(t, index);
      if ElemEq(e.value, x) {
        return index;
      }
      index := index + 1;
    }
    return -1;
  }

  /** The downward scan of `lastIndexOf` as written, from `index`, reading through `get`. */
  function ScanDownAsWritten(t: Tuple, x: Element, index: int): (r: Outcome<int>)
    requires index < |t.Elements()|
    ensures index < 0 ==> r == Returned(-1)
    ensures index >= 0 && r.Returned? ==> 0 < r.value <= index && ElemEqAsWritten(t.Elements()[r.value], x) == Returned(true)
    ensures r.Threw? ==> r.error == IllegalArgument
    decreases index + 1
  {
    if index < 0 then Returned(-1)
    else
      ElemEqAsWrittenOutcome(t.Elements()[index], x);
      match GetAsWritten(t, index)
      case Threw(e) => Threw(e)
      case Returned(v) =>
        match ElemEqAsWritten(v, x)
        case Threw(e) => Threw(e)
        case Returned(same) => if same then Returned(index) else ScanDownAsWritten(t, x, index - 1)
  }

  /** `lastIndexOf` as written: -1 on an empty tuple; otherwise a position above 0 whose element compares true, or an exception. */
  function LastIndexOfAsWritten(t: Tuple, x: Element): (r: Outcome<int>)
    ensures |t.Elements()| == 0 ==> r == Returned(-1)
    ensures |t.Elements()| > 0 && r.Returned? ==>
      0 < r.value < |t.Elements()| && ElemEqAsWritten(t.Elements()[r.value], x) == Returned(true)
    ensures r.Threw? ==> r.error == IllegalArgument
  {
    ScanDownAsWritten(t, x, |t.Elements()| - 1)
  }

  /**
   * Position `j` is where a downward scan from `index` stops: comparing its
   * element does not answer false, and comparing every element above it, up
   * to `index`, does.
   */
  ghost predicate StopsDownAt(s: seq<Element>, x: Element, index: int, j: int)
    requires index < |s|
  {
    0 <= j <= index && ElemEqAsWritten(s[j], x) != Returned(false)
    && forall k :: j < k <= index ==> ElemEqAsWritten(s[k], x) == Returned(false)
  }

  /**
   * The downward scan as written stops at the highest position above 0 whose
   * comparison does not answer false: there it returns the position or
   * throws; with no such position it reaches index 0 and throws.
   */
  lemma {:induction false} ScanDownAsWrittenOutcome(t: Tuple, x: Element, index: int)
    requires 0 <= index < |t.Elements()|
    ensures (forall j :: 0 < j <= index ==> ElemEqAsWritten(t.Elements()[j], x) == Returned(false)) ==>
      ScanDownAsWritten(t, x, index) == Threw(IllegalArgument)
    ensures forall j :: 0 < j && StopsDownAt(t.Elements(), x, index, j) ==>
      ScanDownAsWritten(t, x, index) ==
        if ElemEqAsWritten(t.Elements()[j], x) == Returned(true) then Returned(j) else Threw(IllegalArgument)
    decreases index
  {
    var s := t.Elements();
    if index > 0 {
      var c := ElemEqAsWritten(s[index], x);
      ElemEqAsWrittenOutcome(s[index], x);
      if c == Returned(false) {
        ScanDownAsWrittenOutcome(t, x, index - 1);
        forall j | 0 < j && StopsDownAt(s, x, index, j)
          ensures StopsDownAt(s, x, index - 1, j)
        {
        }
      } else {
        forall j | 0 < j && StopsDownAt(s, x, index, j)
          ensures j == index
        {
        }
      }
    }
  }

  /**
   * `lastIndexOf` as written answers -1 on an empty tuple; otherwise it stops
   * at the last position above 0 whose comparison does not answer false, and
   * throws when there is none.
   */
  lemma LastIndexOfAsWrittenOutcome(t: Tuple, x: Element)
    ensures |t.Elements()| == 0 ==> LastIndexOfAsWritten(t, x) == Returned(-1)
    ensures |t.Elements()| > 0 && (forall j :: 0 < j < |t.Elements()| ==> ElemEqAsWritten(t.Elements()[j], x) == Returned(false)) ==>
      LastIndexOfAsWritten(t, x) == Threw(IllegalArgument)
    ensures forall j :: 0 < j < |t.Elements()| && StopsDownAt(t.Elements(), x, |t.Elements()| - 1, j) ==>
      LastIndexOfAsWritten(t, x) ==
        if ElemEqAsWritten(t.Elements()[j], x) == Returned(true) then Returned(j) else Threw(IllegalArgument)
  {
    if |t.Elements()| > 0 {
      ScanDownAsWrittenOutcome(t, x, |t.Elements()| - 1);
    }
  }

  /** `lastIndexOf`: the last position holding an element equal to the argument, or -1. */
  method LastIndexOf(t: Tuple, x: Element) returns (r: int)
    ensures -1 <= r < |t.Elements()|
    ensures r == -1 <==> forall i :: 0 <= i < |t.Elements()| ==> !ElemEq(t.Elements()[i], x)
    ensures r >= 0 ==> ElemEq(t.Elements()[r], x) && forall i :: r < i < |t.Elements()| ==> !ElemEq(t.Elements()[i], x)
  {
    var elements := t.Elements();
    var index := |elements| - 1;
    while index >= 0
      invariant -1 <= index < |elements|
      invariant forall i :: index < i < |elements| ==> !ElemEq(elements[i], x)
    {
      var e := Get(t, index);
      if ElemEq(e.value, x) {
        return index;
      }
      index := index - 1;
    }
    return -1;
  }

  /** The elements one element contributes to `flatten`. */
  function Spliced(e: Element): seq<Element>
  {
    match e
    case Nested(NullTuple, _) => []
    case Nested(ListTuple(items), _) => items
    case _ => [e]
  }

  /** One level of splicing: a nested tuple gives its elements, a nested `NullTuple` nothing. */
  function Splice(s: seq<Element>): seq<Element>
  {
    if |s| == 0 then [] else Splice(s[..|s| - 1]) + Spliced(s[|s| - 1])
  }

  /** Splicing distributes over concatenation. */
  lemma {:induction false} SpliceAppend(s: seq<Element>, t: seq<Element>)
    ensures Splice(s + t) == Splice(s) + Splice(t)
    decreases |t|
  {
    if |t| == 0 {
      assert s + t == s;
    } else {
      var u := t[..|t| - 1];
      assert (s + t)[..|s + t| - 1] == s + u;
      SpliceAppend(s, u);
    }
  }

  /** Elements that are not tuples pass through splicing unchanged. */
  lemma {:induction false} SpliceFlat(s: seq<Element>)
    requires forall i :: 0 <= i < |s| ==> !s[i].Nested?
    ensures Splice(s) == s
  {
    if |s| > 0 {
      SpliceFlat(s[..|s| - 1]);
    }
  }

  /**
   * Every spliced element is a non-tuple element of the input or an element
   * of one of its nested tuples.
   */
  lemma {:induction false} SpliceMembers(s: seq<Element>, x: Element)
    ensures x in Splice(s) <==>
      (!x.Nested? && x in s)
      || (exists i :: 0 <= i < |s| && s[i].Nested? && x in s[i].tuple.Elements())
  {
    if |s| > 0 {
      var init := s[..|s| - 1];
      var last := s[|s| - 1];
      SpliceMembers(init, x);
      assert forall i :: 0 <= i < |init| ==> init[i] == s[i];
      assert s == init + [last];
      assert x in s <==> x in init || x == last;
      assert x in Spliced(last) <==> (last.Nested? && x in last.tuple.Elements()) || (!last.Nested? && x == last);
    }
  }

  /** What one element's splice contributes to the hash: its own hash code, nothing for null. */
  lemma SplicedHash(e: Element)
    ensures e == Null ==> XorHash(Spliced(e)) == 0
    ensures e != Null ==> XorHash(Spliced(e)) == ElementHash(e)
  {
    if !e.Nested? {
      assert Spliced(e)[..0] == [];
    }
  }

  /** Splicing keeps the hash: a nested tuple's hash is the XOR of its elements. */
  lemma {:induction false} SpliceKeepsHash(s: seq<Element>)
    ensures XorHash(Splice(s)) == XorHash(s)
  {
    if |s| > 0 {
      var init := s[..|s| - 1];
      var last := s[|s| - 1];
      SpliceKeepsHash(init);
      XorHashAppend(Splice(init), Spliced(last));
      SplicedHash(last);
    }
  }

  /** The tuple `flatten` produces. */
  function Flattened(t: Tuple): Tuple
  {
    if t.NullTuple? then t else ListTuple(Splice(t.items))
  }

  /** `flatten`: a `NullTuple` is itself; otherwise nested tuples are spliced in, one level deep. */
  method Flatten(t: Tuple) returns (r: Tuple)
    ensures r == Flattened(t)
    ensures t.ListTuple? ==> r.ListTuple?
    ensures HashCode(r) == HashCode(t)
  {
    if t.NullTuple? {
      return t;
    }
    SpliceKeepsHash(t.items);
    var elements: seq<Element> := [];
    var i := 0;
    while i < |t.items|
      invariant 0 <= i <= |t.items|
      invariant elements == Splice(t.items[..i])
    {
      var element := t.items[i];
      assert t.items[..i + 1][..i] == t.items[..i];
      if element.Nested? {
        if element.tuple.ListTuple? {
          elements := elements + element.tuple.items;
        }
      } else {
        elements := elements + [element];
      }
      i := i + 1;
    }
    assert t.items[..i] == t.items;
    r := Of(Some(elements));
  }

  /** A measure for recursion through nested tuples: one per element, plus the elements a nested tuple holds. */
  function Size(e: Element): (n: nat)
    ensures n >= 1
    decreases e
  {
    match e
    case Nested(ListTuple(items), _) => 1 + SizeOf(items)
    case _ => 1
  }

  /** The measure of a list of elements. */
  function SizeOf(s: seq<Element>): nat
    decreases s
  {
    if |s| == 0 then 0 else SizeOf(s[..|s| - 1]) + Size(s[|s| - 1])
  }

  /** The measure of a concatenation is the sum of the measures. */
  lemma {:induction false} SizeOfAppend(s: seq<Element>, t: seq<Element>)
    ensures SizeOf(s + t) == SizeOf(s) + SizeOf(t)
    decreases |t|
  {
    if |t| == 0 {
      assert s + t == s;
    } else {
      assert (s + t)[..|s + t| - 1] == s + t[..|t| - 1];
      SizeOfAppend(s, t[..|t| - 1]);
    }
  }

  /** No element measures more than the list holding it. */
  lemma {:induction false} ElementSizes(s: seq<Element>)
    ensures forall i :: 0 <= i < |s| ==> Size(s[i]) <= SizeOf(s)
  {
    if |s| > 0 {
      var init := s[..|s| - 1];
      ElementSizes(init);
      assert forall i :: 0 <= i < |init| ==> s[i] == init[i];
    }
  }

  /** Splicing never makes the measure grow: a nested tuple gives up the one its own object counted. */
  lemma {:induction false} SpliceSize(s: seq<Element>)
    ensures SizeOf(Splice(s)) <= SizeOf(s)
  {
    if |s| > 0 {
      var init, last := s[..|s| - 1], s[|s| - 1];
      SpliceSize(init);
      SizeOfAppend(Splice(init), Spliced(last));
      if !last.Nested? || last.tuple.NullTuple? {
        assert Spliced(last) == [] || Spliced(last)[..0] == [];
      }
    }
  }

  /** Flattening never makes the measure grow. */
  lemma FlattenedSize(t: Tuple)
    ensures SizeOf(Flattened(t).Elements()) <= SizeOf(t.Elements())
  {
    if t.ListTuple? {
      SpliceSize(t.items);
    }
  }

  /**
   * Equality of two elements as the tuple code means it: two nulls are
   * equal, two nested tuples are equal when their tuples are (whatever their
   * identities), a tuple never equals an atom, and atoms compare by value.
   */
  function ElemEq(x: Element, y: Element): bool
    decreases Size(x), 0
  {
    match (x, y)
    case (Nested(a, _), Nested(b, _)) => TupleEq(a, b)
    case (Nested(_, _), _) => false
    case (_, Nested(_, _)) => false
    case _ => x == y
  }

  /** Two tuple objects are equal when their flattened element lists are. */
  function TupleEq(a: Tuple, b: Tuple): bool
    decreases SizeOf(a.Elements()), 2
  {
    FlattenedSize(a);
    ListEq(Flattened(a).Elements(), Flattened(b).Elements())
  }

  /** Two element lists are equal when they have one length and are equal position by position. */
  function ListEq(s: seq<Element>, t: seq<Element>): bool
    decreases SizeOf(s), 1
  {
    ElementSizes(s);
    |s| == |t| && forall i :: 0 <= i < |s| ==> ElemEq(s[i], t[i])
  }

  /** Every element equals itself. */
  lemma {:induction false} ElemEqReflexive(x: Element)
    ensures ElemEq(x, x)
    decreases Size(x), 0
  {
    if x.Nested? {
      TupleEqReflexive(x.tuple);
    }
  }

  /** Every tuple equals itself. */
  lemma {:induction false} TupleEqReflexive(a: Tuple)
    ensures TupleEq(a, a)
    decreases SizeOf(a.Elements()), 2
  {
    FlattenedSize(a);
    ListEqReflexive(Flattened(a).Elements());
  }

  /** Every element list equals itself. */
  lemma {:induction false} ListEqReflexive(s: seq<Element>)
    ensures ListEq(s, s)
    decreases SizeOf(s), 1
  {
    ElementSizes(s);
    forall i | 0 <= i < |s|
      ensures ElemEq(s[i], s[i])
    {
      ElemEqReflexive(s[i]);
    }
  }

  /** Element equality is symmetric. */
  lemma {:induction false} ElemEqSymmetric(x: Element, y: Element)
    requires ElemEq(x, y)
    ensures ElemEq(y, x)
    decreases Size(x), 0
  {
    if x.Nested? {
      TupleEqSymmetric(x.tuple, y.tuple);
    }
  }

  /** Tuple equality is symmetric. */
  lemma {:induction false} TupleEqSymmetric(a: Tuple, b: Tuple)
    requires TupleEq(a, b)
    ensures TupleEq(b, a)
    decreases SizeOf(a.Elements()), 2
  {
    FlattenedSize(a);
    ListEqSymmetric(Flattened(a).Elements(), Flattened(b).Elements());
  }

  /** List equality is symmetric. */
  lemma {:induction false} ListEqSymmetric(s: seq<Element>, t: seq<Element>)
    requires ListEq(s, t)
    ensures ListEq(t, s)
    decreases SizeOf(s), 1
  {
    ElementSizes(s);
    forall i | 0 <= i < |t|
      ensures ElemEq(t[i], s[i])
    {
      ElemEqSymmetric(s[i], t[i]);
    }
  }

  /** Equal elements have equal hash codes. */
  lemma {:induction false} ElemEqHash(x: Element, y: Element)
    requires ElemEq(x, y)
    ensures ElementHash(x) == ElementHash(y)
    decreases Size(x), 0
  {
    if x.Nested? {
      EqualTuplesHashAlike(x.tuple, y.tuple);
    }
  }

  /** Equal tuples have equal hash codes, since flattening keeps the hash. */
  lemma {:induction false} EqualTuplesHashAlike(a: Tuple, b: Tuple)
    requires TupleEq(a, b)
    ensures HashCode(a) == HashCode(b)
    decreases SizeOf(a.Elements()), 2
  {
    FlattenedSize(a);
    ListEqHash(Flattened(a).Elements(), Flattened(b).Elements());
    if a.ListTuple? {
      SpliceKeepsHash(a.items);
    }
    if b.ListTuple? {
      SpliceKeepsHash(b.items);
    }
  }

  /** Equal element lists have equal hashes. */
  lemma {:induction false} ListEqHash(s: seq<Element>, t: seq<Element>)
    requires ListEq(s, t)
    ensures XorHash(s) == XorHash(t)
    decreases SizeOf(s), 1
  {
    if |s| > 0 {
      var n := |s| - 1;
      ElementSizes(s);
      assert ListEq(s[..n], t[..n]) by {
        assert forall i :: 0 <= i < n ==> s[..n][i] == s[i] && t[..n][i] == t[i];
      }
      ListEqHash(s[..n], t[..n]);
      ElemEqHash(s[n], t[n]);
    }
  }

  /** The argument of `equals`: the receiver itself, an object of another class, or another tuple. */
  datatype Other = SameReference | NotATuple | AnotherTuple(tuple: Tuple)

  /**
   * `ObjectUtils.nullSafeEquals` as the tuple code meets it: the same object
   * is equal; otherwise the first element's `equals` decides, which for a
   * tuple is `equals` as written.
   */
  function ElemEqAsWritten(x: Element, y: Element): Outcome<bool>
    decreases Size(x), 0, 0
  {
    match (x, y)
    case (Nested(a, p), Nested(b, q)) => if p == q then Returned(true) else EqualsAsWritten(a, AnotherTuple(b))
    case (Nested(_, _), _) => Returned(false)
    case (_, Nested(_, _)) => Returned(false)
    case _ => Returned(x == y)
  }

  /** The element-wise comparison of `equals` as written, from `index`, reading through `get`. */
  function CompareFromAsWritten(a: Tuple, b: Tuple, index: nat): Outcome<bool>
    requires |a.Elements()| == |b.Elements()|
    decreases SizeOf(a.Elements()), 2, |a.Elements()| - index
  {
    ElementSizes(a.Elements());
    if index >= |a.Elements()| then Returned(true)
    else match (GetAsWritten(a, index), GetAsWritten(b, index))
      case (Threw(e), _) => Threw(e)
      case (_, Threw(e)) => Threw(e)
      case (Returned(x), Returned(y)) =>
        match ElemEqAsWritten(x, y)
        case Threw(e) => Threw(e)
        case Returned(same) => if !same then Returned(false) else CompareFromAsWritten(a, b, index + 1)
  }

  /**
   * `equals` as written: true for the same object, false for a non-tuple;
   * between distinct tuples, false for different flattened sizes, true when
   * both flatten to nothing, and otherwise it throws, because its first read
   * is `get(0)`.
   */
  function EqualsAsWritten(t: Tuple, other: Other): (r: Outcome<bool>)
    ensures other.SameReference? ==> r == Returned(true)
    ensures other.NotATuple? ==> r == Returned(false)
    ensures other.AnotherTuple? ==>
      var m, n := |Flattened(t).Elements()|, |Flattened(other.tuple).Elements()|;
      r == if m != n then Returned(false) else if m == 0 then Returned(true) else Threw(IllegalArgument)
    decreases SizeOf(t.Elements()), 3, 0
  {
    match other
    case SameReference => Returned(true)
    case NotATuple => Returned(false)
    case AnotherTuple(o) =>
      var a, b := Flattened(t), Flattened(o);
      FlattenedSize(t);
      if |a.Elements()| != |b.Elements()| then Returned(false) else CompareFromAsWritten(a, b, 0)
  }

  /** `equals` as written throws on `(1).equals((1))` for two distinct `(1)` tuples. */
  lemma EqualsAsWrittenFails()
    ensures EqualsAsWritten(Of(Some([Atom(1, 1)])), AnotherTuple(Of(Some([Atom(1, 1)])))) == Threw(IllegalArgument)
  {
    assert Flattened(Of(Some([Atom(1, 1)]))).Elements() == [Atom(1, 1)];
  }

  /**
   * What `nullSafeEquals` as written answers: equality for anything but two
   * tuples; for two tuples, true for one object and otherwise what `equals`
   * as written gives, so it throws exactly for two distinct tuple objects of
   * one non-zero flattened size.
   */
  lemma ElemEqAsWrittenOutcome(x: Element, y: Element)
    ensures !x.Nested? || !y.Nested? ==> ElemEqAsWritten(x, y) == Returned(x == y)
    ensures x.Nested? && y.Nested? && x.ref == y.ref ==> ElemEqAsWritten(x, y) == Returned(true)
    ensures x.Nested? && y.Nested? && x.ref != y.ref ==>
      var m, n := |Flattened(x.tuple).Elements()|, |Flattened(y.tuple).Elements()|;
      ElemEqAsWritten(x, y) == if m != n then Returned(false) else if m == 0 then Returned(true) else Threw(IllegalArgument)
    ensures ElemEqAsWritten(x, y).Threw? ==> ElemEqAsWritten(x, y).error == IllegalArgument
  {
  }

  /**
   * Where `nullSafeEquals` as written answers, it agrees with the intended
   * element equality, given that one identity names one tuple.
   */
  lemma ElemEqAsWrittenAgrees(x: Element, y: Element)
    requires x.Nested? && y.Nested? && x.ref == y.ref ==> x.tuple == y.tuple
    ensures ElemEqAsWritten(x, y).Returned? ==> ElemEqAsWritten(x, y).value == ElemEq(x, y)
  {
    ElemEqAsWrittenOutcome(x, y);
    if x.Nested? && y.Nested? {
      if x.ref == y.ref {
        TupleEqReflexive(x.tuple);
      } else {
        FlattenedSize(x.tuple);
        assert ElemEq(x, y) == ListEq(Flattened(x.tuple).Elements(), Flattened(y.tuple).Elements());
      }
    }
  }

  /**
   * Two distinct but equal tuple objects: the intended equality holds, and
   * `nullSafeEquals` as written throws. An empty list tuple equals the
   * `NullTuple`, and as written that comparison answers true.
   */
  lemma DistinctEqualTuplesThrow()
    ensures var one := Of(Some([Atom(1, 1)]));
      ElemEq(Nested(one, 0), Nested(one, 1)) && ElemEqAsWritten(Nested(one, 0), Nested(one, 1)) == Threw(IllegalArgument)
    ensures ElemEq(Nested(NullTuple, 0), Nested(ListTuple([]), 1))
    ensures ElemEqAsWritten(Nested(NullTuple, 0), Nested(ListTuple([]), 1)) == Returned(true)
  {
    var one := Of(Some([Atom(1, 1)]));
    TupleEqReflexive(one);
    assert Flattened(ListTuple([])).Elements() == [];
  }

  /** Position `i` is where a forward scan for `x` stops: its comparison does not answer false, and none before it does. */
  ghost predicate StopsUpAt(s: seq<Element>, x: Element, i: int)
  {
    0 <= i < |s| && ElemEqAsWritten(s[i], x) != Returned(false)
    && forall j :: 0 <= j < i ==> ElemEqAsWritten(s[j], x) == Returned(false)
  }

  /** A forward scan stops at one position at most. */
  lemma StopsUpAtUnique(s: seq<Element>, x: Element, i: int, k: int)
    requires StopsUpAt(s, x, i) && StopsUpAt(s, x, k)
    ensures i == k
  {
  }

  /**
   * `contains(element)` as written: it answers with the first comparison that
   * does not say false, so an exception from a nested tuple's `equals`
   * escapes; false when every comparison says false.
   */
  method ContainsAsWritten(t: Tuple, x: Element) returns (r: Outcome<bool>)
    ensures (forall i :: 0 <= i < |t.Elements()| ==> ElemEqAsWritten(t.Elements()[i], x) == Returned(false)) ==> r == Returned(false)
    ensures forall i :: StopsUpAt(t.Elements(), x, i) ==> r == ElemEqAsWritten(t.Elements()[i], x)
  {
    var elements := t.Elements();
    var i := 0;
    while i < |elements|
      invariant 0 <= i <= |elements|
      invariant forall j :: 0 <= j < i ==> ElemEqAsWritten(elements[j], x) == Returned(false)
    {
      var c := ElemEqAsWritten(elements[i], x);
      if c != Returned(false) {
        forall k | StopsUpAt(elements, x, k)
          ensures k == i
        {
          StopsUpAtUnique(elements, x, i, k);
        }
        return c;
      }
      i := i + 1;
    }
    return Returned(false);
  }

  /** `contains(element)` with the intended equality: true exactly when some element equals the argument. */
  method Contains(t: Tuple, x: Element) returns (r: bool)
    ensures r <==> exists i :: 0 <= i < |t.Elements()| && ElemEq(t.Elements()[i], x)
  {
    var elements := t.Elements();
    var i := 0;
    while i < |elements|
      invariant 0 <= i <= |elements|
      invariant forall j :: 0 <= j < i ==> !ElemEq(elements[j], x)
    {
      if ElemEq(elements[i], x) {
        return true;
      }
      i := i + 1;
    }
    return false;
  }

  /** `equals` with indexes from 0: distinct tuples are equal when their flattened elements are, element by element. */
  method Equals(t: Tuple, other: Other) returns (r: bool)
    ensures other.SameReference? ==> r
    ensures other.NotATuple? ==> !r
    ensures other.AnotherTuple? ==> (r <==> TupleEq(t, other.tuple))
  {
    if other.SameReference? {
      return true;
    }
    if other.NotATuple? {
      return false;
    }
    var thisTuple := Flatten(t);
    var otherTuple := Flatten(other.tuple);
    var a, b := thisTuple.Elements(), otherTuple.Elements();
    if |a| != |b| {
      return false;
    }
    var index := 0;
    while index < |a|
      invariant 0 <= index <= |a|
      invariant forall j :: 0 <= j < index ==> ElemEq(a[j], b[j])
    {
      var x := Get(thisTuple, index);
      var y := Get(otherTuple, index);
      if !ElemEq(x.value, y.value) {
        return false;
      }
      index := index + 1;
    }
    return true;
  }

  /** Decimal digits of a non-negative integer. */
  function Digits(n: nat): (r: string)
    ensures |r| >= 1
    decreases n
  {
    var d := ['0', '1', '2', '3', '4', '5', '6', '7', '8', '9'][n % 10];
    if n < 10 then [d] else Digits(n / 10) + [d]
  }

  /** `String.valueOf` of an element. */
  function Text(e: Element): string
    decreases e, 1
  {
    match e
    case Null => "null"
    case Atom(v, _) => if v < 0 then "-" + Digits(-v) else Digits(v)
    case Nested(t, _) => TupleText(t)
  }

  /** The texts of the elements separated by ", ". */
  function Joined(s: seq<Element>): string
    decreases s
  {
    if |s| == 0 then ""
    else if |s| == 1 then Text(s[0])
    else Joined(s[..|s| - 1]) + ", " + Text(s[|s| - 1])
  }

  /** The text of a tuple without elements, character for character as `Tuple.toString` spells it. */
  const EmptyText := "\U{C3}\U{2DC}"

  /** `toString()`: the empty-tuple sign for no elements, otherwise the joined texts in parentheses. */
  function TupleText(t: Tuple): string
    decreases t, 0
  {
    match t
    case NullTuple => EmptyText
    case ListTuple(items) => if |items| == 0 then EmptyText else "(" + Joined(items) + ")"
  }

  /** `toString()` with its `StringBuilder` loop. */
  method ToString(t: Tuple) returns (r: string)
    ensures r == TupleText(t)
    ensures |t.Elements()| > 0 ==> r[0] == '(' && r[|r| - 1] == ')'
  {
    var elements := t.Elements();
    if |elements| == 0 {
      return EmptyText;
    }
    var builder := "(";
    var index := 0;
    while index < |elements|
      invariant 0 <= index <= |elements|
      invariant index == 0 ==> builder == "("
      invariant 0 < index < |elements| ==> builder == "(" + Joined(elements[..index]) + ", "
      invariant index == |elements| ==> builder == "(" + Joined(elements[..index])
    {
      ghost var s := elements[..index + 1];
      assert s[..|s| - 1] == elements[..index];
      builder := builder + Text(elements[index]);
      if index < |elements| - 1 {
        builder := builder + ", ";
      }
      index := index + 1;
    }
    assert elements[..index] == elements;
    r := builder + ")";
  }
}
