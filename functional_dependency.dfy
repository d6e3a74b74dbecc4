/**
 * A functional dependency left -> right over 0-based attribute (column)
 * indices. The value is immutable: everything the Java class derives in
 * its constructor (the sorted left side, the single right attribute) is a
 * function of the two sets here.
 */
module FunctionalDependencies {
  import opened Wrappers
  import opened Strings
  import opened SortedSets

  datatype FD = FD(left: set<nat>, right: set<nat>)

  /** A simple FD has exactly one attribute on its right side. */
  predicate IsSimple(fd: FD) {
    |fd.right| == 1
  }

  /** The left side in ascending order (the leftSideArray field). */
  function LeftSideArray(fd: FD): (xs: seq<nat>)
    ensures StrictlyIncreasing(xs)
    ensures forall x :: x in xs <==> x in fd.left
    ensures |xs| == |fd.left|
  {
    SortedElements(fd.left)
  }

  /** The single right attribute of a simple FD, and -1 for any other FD. */
  function SimpleRightSide(fd: FD): (r: int)
    ensures IsSimple(fd) ==> r >= 0 && fd.right == {r}
    ensures !IsSimple(fd) ==> r == -1
  {
    if |fd.right| == 1 then
      var r := SetMin(fd.right);
      var others := fd.right - {r};
      assert fd.right == others + {r};
      assert |others| == 0;
      r
    else -1
  }

  /** A trivial FD determines nothing new: its right side is inside its left side. */
  predicate IsTrivial(fd: FD) {
    fd.right <= fd.left
  }

  /**
   * `a` covers `b` when both have the same right side and `a` needs at least
   * the attributes `b` needs: `a` is then the weaker (redundant) one.
   */
  predicate Covers(a: FD, b: FD) {
    a.right <= b.right && b.right <= a.right && b.left <= a.left
  }

  /**
   * The decomposition left -> right into one FD left -> {a} per right
   * attribute a. The Java code walks the right-side set in hash order; this
   * model walks it in ascending order.
   */
  function GetSimpleFunctionalDependencies(fd: FD): (simple: seq<FD>)
    ensures |simple| == |fd.right|
    ensures forall k :: 0 <= k < |simple| ==>
              simple[k].left == fd.left && IsSimple(simple[k]) && simple[k].right <= fd.right
  {
    var rs := SortedElements(fd.right);
    assert forall k :: 0 <= k < |rs| ==> rs[k] in rs;
    seq(|rs|, k requires 0 <= k < |rs| => FD(fd.left, {rs[k]}))
  }

  /**
   * The decomposition yields exactly one FD left -> {a} for each right
   * attribute a, and no two of them alike.
   */
  lemma SimpleFdsOnePerAttribute(fd: FD)
    ensures forall a :: a in fd.right ==>
              exists k :: 0 <= k < |GetSimpleFunctionalDependencies(fd)| && GetSimpleFunctionalDependencies(fd)[k] == FD(fd.left, {a})
    ensures forall k, k' :: 0 <= k < k' < |GetSimpleFunctionalDependencies(fd)| ==>
              GetSimpleFunctionalDependencies(fd)[k] != GetSimpleFunctionalDependencies(fd)[k']
  {
    var rs := SortedElements(fd.right);
    var simple := GetSimpleFunctionalDependencies(fd);
    assert forall k :: 0 <= k < |rs| ==> simple[k] == FD(fd.left, {rs[k]});
    forall k, k' | 0 <= k < k' < |simple| ensures simple[k] != simple[k'] {
      assert rs[k] < rs[k'];
      assert rs[k] in simple[k].right;
    }
    forall a | a in fd.right ensures exists k :: 0 <= k < |simple| && simple[k] == FD(fd.left, {a}) {
      var k :| 0 <= k < |rs| && rs[k] == a;
      assert simple[k] == FD(fd.left, {a});
    }
  }

  /** All attributes the FD mentions. */
  function GetAttributeIndices(fd: FD): (attrs: set<nat>)
    ensures forall a :: a in attrs <==> a in fd.left || a in fd.right
  {
    fd.left + fd.right
  }

  /**
   * The FD over the subtable that lacks the columns in colsToDelete
   * (ascending): every attribute moves down by the number of deleted
   * columns below it.
   */
  function ConvertToSubtable(fd: FD, colsToDelete: seq<nat>): (r: FD)
    requires StrictlyIncreasing(colsToDelete)
    ensures forall x :: x in fd.left ==> Shift(x, colsToDelete) in r.left
    ensures forall x :: x in fd.right ==> Shift(x, colsToDelete) in r.right
    ensures forall y :: y in r.left ==> exists x :: x in fd.left && Shift(x, colsToDelete) == y
    ensures forall y :: y in r.right ==> exists x :: x in fd.right && Shift(x, colsToDelete) == y
  {
    FD(set x | x in fd.left :: Shift(x, colsToDelete), set x | x in fd.right :: Shift(x, colsToDelete))
  }

  /** With no column deleted the conversion is the identity. */
  lemma ConvertToSubtableIdentity(fd: FD)
    ensures ConvertToSubtable(fd, []) == fd
  {
    var r := ConvertToSubtable(fd, []);
    forall x | x in fd.left ensures x in r.left {
      ShiftNothing(x);
    }
    forall x | x in fd.right ensures x in r.right {
      ShiftNothing(x);
    }
  }

  lemma ShiftInjectiveOn(s: set<nat>, d: seq<nat>)
    requires StrictlyIncreasing(d)
    requires forall x :: x in s ==> x !in d
    ensures |set x | x in s :: Shift(x, d)| == |s|
    decreases s
  {
    if s != {} {
      var x0 :| x0 in s;
      var rest := s - {x0};
      ShiftInjectiveOn(rest, d);
      var image := set x | x in s :: Shift(x, d);
      var restImage := set x | x in rest :: Shift(x, d);
      assert image == restImage + {Shift(x0, d)};
      forall x | x in rest ensures Shift(x, d) != Shift(x0, d) {
        if x < x0 {
          ShiftMonotone(x, x0, d);
        } else {
          ShiftMonotone(x0, x, d);
        }
      }
      assert Shift(x0, d) !in restImage;
    }
  }

  /**
   * When no attribute of the FD is deleted, the conversion loses no
   * attribute (so a simple FD stays simple), and each attribute x lands on
   * the position of x among the columns kept out of 0 .. cols-1.
   */
  lemma ConvertToSubtableKept(fd: FD, colsToDelete: seq<nat>, cols: nat)
    requires StrictlyIncreasing(colsToDelete)
    requires forall a :: a in GetAttributeIndices(fd) ==> a < cols && a !in colsToDelete
    ensures |ConvertToSubtable(fd, colsToDelete).left| == |fd.left|
    ensures |ConvertToSubtable(fd, colsToDelete).right| == |fd.right|
    ensures forall y :: y in GetAttributeIndices(ConvertToSubtable(fd, colsToDelete)) ==>
              y < |Kept(cols, colsToDelete)| && Kept(cols, colsToDelete)[y] in GetAttributeIndices(fd)
    ensures forall a :: a in GetAttributeIndices(fd) ==>
              Shift(a, colsToDelete) < |Kept(cols, colsToDelete)| && Kept(cols, colsToDelete)[Shift(a, colsToDelete)] == a
  {
    ShiftInjectiveOn(fd.left, colsToDelete);
    ShiftInjectiveOn(fd.right, colsToDelete);
    forall a | a in GetAttributeIndices(fd)
      ensures Shift(a, colsToDelete) < |Kept(cols, colsToDelete)|
      ensures Kept(cols, colsToDelete)[Shift(a, colsToDelete)] == a
    {
      ShiftIsRank(a, cols, colsToDelete);
    }
  }

  /** The text of one side: the ascending 1-based indices joined by ",". */
  function IndexListToString(xs: seq<nat>): string
  {
    Join(OneBasedTexts(xs), ',')
  }

  function OneBasedTexts(xs: seq<nat>): (texts: seq<string>)
    ensures |texts| == |xs|
    ensures forall k :: 0 <= k < |xs| ==> texts[k] == NatToString(xs[k] + 1)
  {
    seq(|xs|, k requires 0 <= k < |xs| => NatToString(xs[k] + 1))
  }

  /**
   * leftSideToString: the key under which the closure groups FDs. An
   * empty left side makes the Java code fail (it reads element 0).
   */
  function LeftSideToString(fd: FD): string
    requires fd.left != {}
  {
    IndexListToString(LeftSideArray(fd))
  }

  /** toString: "l1,...,lk->r1,...,rm" with 1-based indices. */
  function ToString(fd: FD): string
    requires fd.left != {} && fd.right != {}
  {
    LeftSideToString(fd) + "->" + IndexListToString(SortedElements(fd.right))
  }

  /**
   * Each text parsed with Integer.parseInt, minus one. None when a text is
   * not a number or gives a negative index.
   */
  function ParseIndexList(texts: seq<string>): (r: Option<seq<nat>>)
    ensures r.Some? ==> |r.value| == |texts|
  {
    if |texts| == 0 then Some([])
    else
      match ParseInt(texts[0])
      case None => None
      case Some(v) =>
        if v < 1 then None
        else
          match ParseIndexList(texts[1..])
          case None => None
          case Some(rest) => Some([v - 1] + rest)
  }

  /** A parsed list holds, at each place, the number its text denotes, minus one. */
  lemma {:induction false} ParseIndexListValues(texts: seq<string>)
    requires ParseIndexList(texts).Some?
    ensures forall k :: 0 <= k < |texts| ==> ParseInt(texts[k]) == Some(ParseIndexList(texts).value[k] + 1)
  {
    if |texts| > 0 {
      var rest := ParseIndexList(texts[1..]).value;
      ParseIndexListValues(texts[1..]);
      forall k | 1 <= k < |texts| ensures ParseInt(texts[k]) == Some(ParseIndexList(texts).value[k] + 1) {
        assert texts[1..][k - 1] == texts[k];
        assert ParseIndexList(texts).value[k] == rest[k - 1];
      }
    }
  }

  /** The key parsed back into a left side, as getCombinedFds does. */
  function ParseLeftSide(s: string): Option<set<nat>>
  {
    var parsed := ParseIndexList(Split(s, ','));
    if parsed.None? then None else Some(Elements(parsed.value))
  }

  /** The set of entries of a list (what Collectors.toSet builds). */
  function Elements(xs: seq<nat>): (s: set<nat>)
    ensures forall x :: x in s <==> x in xs
  {
    set x | x in xs
  }

  /** Texts that each parse to a positive number parse, as a list, to those numbers minus one. */
  lemma {:induction false} ParseIndexListOf(texts: seq<string>, xs: seq<nat>)
    requires |texts| == |xs|
    requires forall k :: 0 <= k < |texts| ==> ParseInt(texts[k]) == Some(xs[k] + 1)
    ensures ParseIndexList(texts) == Some(xs)
  {
    if |texts| > 0 {
      forall k | 0 <= k < |texts| - 1 ensures ParseInt(texts[1..][k]) == Some(xs[1..][k] + 1) {
        assert texts[1..][k] == texts[k + 1] && xs[1..][k] == xs[k + 1];
      }
      ParseIndexListOf(texts[1..], xs[1..]);
      ParseIndexListCons(texts[0], texts[1..], xs[0] + 1, xs[1..]);
      assert [texts[0]] + texts[1..] == texts;
      assert [xs[0]] + xs[1..] == xs;
    }
  }

  /** A list whose first text parses to v >= 1 and whose rest parses parses to v - 1 before the rest. */
  lemma ParseIndexListCons(head: string, tail: seq<string>, v: int, rest: seq<nat>)
    requires v >= 1 && ParseInt(head) == Some(v) && ParseIndexList(tail) == Some(rest)
    ensures ParseIndexList([head] + tail) == Some([v - 1] + rest)
  {
    var texts := [head] + tail;
    assert texts[0] == head && texts[1..] == tail;
  }

  lemma ParseOneBasedTexts(xs: seq<nat>)
    requires forall k :: 0 <= k < |xs| ==> xs[k] < MaxInt
    ensures ParseIndexList(OneBasedTexts(xs)) == Some(xs)
  {
    var texts := OneBasedTexts(xs);
    forall k | 0 <= k < |xs| ensures ParseInt(texts[k]) == Some(xs[k] + 1) {
      ParseIntNatToString(xs[k] + 1);
    }
    ParseIndexListOf(texts, xs);
  }

  /** Parsing the ascending 1-based text of a non-empty index list gives the list back. */
  lemma IndexListRoundTrip(xs: seq<nat>)
    requires |xs| >= 1
    requires forall k :: 0 <= k < |xs| ==> xs[k] < MaxInt
    ensures ParseIndexList(Split(IndexListToString(xs), ',')) == Some(xs)
  {
    var texts := OneBasedTexts(xs);
    assert forall k :: 0 <= k < |texts| ==> ',' !in texts[k] && texts[k] != "";
    SplitJoin(texts, ',');
    ParseOneBasedTexts(xs);
  }

  lemma ParseLeftSideOfList(xs: seq<nat>)
    requires |xs| >= 1
    requires forall k :: 0 <= k < |xs| ==> xs[k] < MaxInt
    ensures ParseLeftSide(IndexListToString(xs)) == Some(Elements(xs))
  {
    IndexListRoundTrip(xs);
  }

  /**
   * The closure's grouping key is faithful: splitting leftSideToString on
   * "," and subtracting one from each number gives the left side back.
   */
  lemma LeftSideStringRoundTrip(fd: FD)
    requires fd.left != {}
    requires forall x :: x in fd.left ==> x < MaxInt
    ensures ParseLeftSide(LeftSideToString(fd)) == Some(fd.left)
  {
    var xs := LeftSideArray(fd);
    assert forall k :: 0 <= k < |xs| ==> xs[k] in xs;
    ParseLeftSideOfList(xs);
    ElementsOfLeftSideArray(fd);
  }

  lemma ElementsOfLeftSideArray(fd: FD)
    ensures Elements(LeftSideArray(fd)) == fd.left
  {
    var xs := LeftSideArray(fd);
    assert forall x :: x in Elements(xs) <==> x in fd.left;
  }

  /** Two FDs get the same key exactly when their left sides are equal. */
  lemma LeftSideStringInjective(a: FD, b: FD)
    requires a.left != {} && b.left != {}
    requires forall x :: x in a.left ==> x < MaxInt
    requires forall x :: x in b.left ==> x < MaxInt
    ensures LeftSideToString(a) == LeftSideToString(b) <==> a.left == b.left
  {
    if LeftSideToString(a) == LeftSideToString(b) {
      LeftSideStringRoundTrip(a);
      LeftSideStringRoundTrip(b);
    }
    if a.left == b.left {
      assert LeftSideArray(a) == LeftSideArray(b);
    }
  }
}
