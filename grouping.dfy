/**
 * getCombinedFds: grouping simple FDs by the text of their left side and
 * merging each group into one FD, with the facts its callers need.
 */
module Grouping {
  import opened Wrappers
  import opened Strings
  import opened FunctionalDependencies
  import opened Tables
  import opened Closure
  import opened Sequences

  /**
   * Every left side is non-empty and every left attribute has a 1-based
   * index that is an int, so getCombinedFds can key an FD by
   * leftSideToString and parse the key back.
   */
  predicate KeyableLefts(fds: seq<FD>) {
    forall k :: 0 <= k < |fds| ==> fds[k].left != {} && forall a :: a in fds[k].left ==> a < MaxInt
  }

  /** Appending fd adds its right attribute to the group of its own left side and to no other. */
  lemma RightsOfAppend(fds: seq<FD>, fd: FD, l: set<nat>)
    requires AllSimple(fds) && IsSimple(fd)
    ensures AllSimple(fds + [fd])
    ensures RightsOf(fds + [fd], l) == RightsOf(fds, l) + (if fd.left == l then {RightAttr(fd)} else {})
  {
    var ext := fds + [fd];
    assert forall k :: 0 <= k < |fds| ==> ext[k] == fds[k];
    assert ext[|fds|] == fd;
    RightsOfAppendNew(fds, fd, l);
    forall x | x in RightsOf(fds, l) ensures x in RightsOf(ext, l) {
      var k :| 0 <= k < |fds| && fds[k].left == l && RightAttr(fds[k]) == x;
      assert ext[k].left == l && RightAttr(ext[k]) == x;
    }
  }

  /** What the appended list has for l, the list had already or fd brings. */
  lemma RightsOfAppendNew(fds: seq<FD>, fd: FD, l: set<nat>)
    requires AllSimple(fds) && IsSimple(fd) && AllSimple(fds + [fd])
    ensures forall x :: x in RightsOf(fds + [fd], l) ==> x in RightsOf(fds, l) || (fd.left == l && x == RightAttr(fd))
  {
    var ext := fds + [fd];
    forall x | x in RightsOf(ext, l) ensures x in RightsOf(fds, l) || (fd.left == l && x == RightAttr(fd)) {
      var k :| 0 <= k < |ext| && ext[k].left == l && RightAttr(ext[k]) == x;
      if k < |fds| {
        assert ext[k] == fds[k];
      }
    }
  }

  /** getCombinedFds' map after adding right attribute a under key. */
  function AddToGroup(m: map<string, seq<nat>>, key: string, a: nat): map<string, seq<nat>> {
    if key in m then m[key := m[key] + [a]] else m[key := [a]]
  }

  /** Two FDs get the same name exactly when they have the same left side. */
  ghost predicate NamesLefts(fds: seq<FD>, names: seq<string>) {
    |names| == |fds|
    && forall i, j :: 0 <= i < |fds| && 0 <= j < |fds| ==> (names[i] == names[j] <==> fds[i].left == fds[j].left)
  }

  /** Each FD of xs put through f, in order. */
  ghost function MapKeys(xs: seq<FD>, f: FD --> string): (ys: seq<string>)
    requires forall k :: 0 <= k < |xs| ==> f.requires(xs[k])
    ensures |ys| == |xs|
  {
    if |xs| == 0 then [] else [f(xs[0])] + MapKeys(xs[1..], f)
  }

  lemma {:induction false} MapKeysAt(xs: seq<FD>, f: FD --> string, i: nat)
    requires forall k :: 0 <= k < |xs| ==> f.requires(xs[k])
    requires i < |xs|
    ensures MapKeys(xs, f)[i] == f(xs[i])
  {
    if i > 0 {
      assert forall k :: 0 <= k < |xs| - 1 ==> xs[1..][k] == xs[k + 1];
      MapKeysAt(xs[1..], f, i - 1);
    }
  }

  /** The key getCombinedFds files each FD under: the text of its left side. */
  ghost function LeftKeys(fds: seq<FD>): (names: seq<string>)
    requires KeyableLefts(fds)
    ensures |names| == |fds|
  {
    MapKeys(fds, LeftSideToString)
  }

  /** The i-th key is the text of the i-th FD's left side. */
  lemma LeftKeyAt(fds: seq<FD>, i: nat)
    requires KeyableLefts(fds) && i < |fds|
    ensures LeftKeys(fds)[i] == LeftSideToString(fds[i])
  {
    MapKeysAt(fds, LeftSideToString, i);
  }

  /** Keying by left-side text separates exactly the distinct left sides. */
  lemma LeftKeysSeparate(fds: seq<FD>)
    requires KeyableLefts(fds)
    ensures NamesLefts(fds, LeftKeys(fds))
  {
    var names := LeftKeys(fds);
    forall i, j | 0 <= i < |fds| && 0 <= j < |fds| ensures names[i] == names[j] <==> fds[i].left == fds[j].left {
      LeftKeyAt(fds, i);
      LeftKeyAt(fds, j);
      LeftSideStringInjective(fds[i], fds[j]);
    }
  }

  /** Every name parses back to its FD's left side. */
  ghost predicate KeysParse(fds: seq<FD>, names: seq<string>) {
    |names| == |fds| && forall i {:trigger ParseLeftSide(names[i])} :: 0 <= i < |fds| ==> ParseLeftSide(names[i]) == Some(fds[i].left)
  }

  /** Keys made by leftSideToString parse back to the left side. */
  lemma LeftKeysParse(fds: seq<FD>)
    requires KeyableLefts(fds)
    ensures KeysParse(fds, LeftKeys(fds))
  {
    forall i | 0 <= i < |fds| ensures ParseLeftSide(LeftKeys(fds)[i]) == Some(fds[i].left) {
      LeftKeyAt(fds, i);
      LeftSideStringRoundTrip(fds[i]);
    }
  }

  /**
   * getCombinedFds' map after the first k FDs: a key for each of them,
   * and under each key the right attributes of the FDs so far with that
   * left side.
   */
  ghost predicate GroupedUpTo(fds: seq<FD>, names: seq<string>, k: nat, m: map<string, seq<nat>>)
    requires k <= |fds| == |names| && AllSimple(fds)
  {
    (forall key :: key in m ==>
       exists i :: 0 <= i < k && names[i] == key && Elements(m[key]) == RightsOf(fds[..k], fds[i].left))
    && (forall i :: 0 <= i < k ==> names[i] in m)
  }

  /** Adding the k-th FD under its key keeps the grouping exact. */
  lemma GroupStep(fds: seq<FD>, names: seq<string>, k: nat, m: map<string, seq<nat>>)
    requires k < |fds| && AllSimple(fds) && NamesLefts(fds, names) && GroupedUpTo(fds, names, k, m)
    ensures GroupedUpTo(fds, names, k + 1, AddToGroup(m, names[k], RightAttr(fds[k])))
  {
    var fd := fds[k];
    var m' := AddToGroup(m, names[k], RightAttr(fd));
    SliceExtend(fds, k);
    forall key | key in m'
      ensures exists i :: 0 <= i < k + 1 && names[i] == key && Elements(m'[key]) == RightsOf(fds[..k + 1], fds[i].left)
    {
      if key == names[k] {
        GroupOwnKey(fds, names, k, m);
        assert Elements(m'[key]) == RightsOf(fds[..k + 1], fds[k].left);
      } else {
        var i := GroupOtherKey(fds, names, k, m, key);
        assert Elements(m'[key]) == RightsOf(fds[..k + 1], fds[i].left);
      }
    }
  }

  /** Under any other key, the group and the FDs with that left side stay as they were. */
  lemma GroupOtherKey(fds: seq<FD>, names: seq<string>, k: nat, m: map<string, seq<nat>>, key: string) returns (i: nat)
    requires k < |fds| && AllSimple(fds) && NamesLefts(fds, names) && GroupedUpTo(fds, names, k, m)
    requires key in m && key != names[k]
    ensures i < k && names[i] == key
    ensures Elements(AddToGroup(m, names[k], RightAttr(fds[k]))[key]) == RightsOf(fds[..k + 1], fds[i].left)
  {
    i :| 0 <= i < k && names[i] == key && Elements(m[key]) == RightsOf(fds[..k], fds[i].left);
    SliceExtend(fds, k);
    RightsOfAppend(fds[..k], fds[k], fds[i].left);
  }

  /** Under the k-th FD's own key, the group gains exactly its right attribute. */
  lemma GroupOwnKey(fds: seq<FD>, names: seq<string>, k: nat, m: map<string, seq<nat>>)
    requires k < |fds| && AllSimple(fds) && NamesLefts(fds, names) && GroupedUpTo(fds, names, k, m)
    ensures Elements(AddToGroup(m, names[k], RightAttr(fds[k]))[names[k]]) == RightsOf(fds[..k + 1], fds[k].left)
  {
    if names[k] in m {
      var i :| 0 <= i < k && names[i] == names[k] && Elements(m[names[k]]) == RightsOf(fds[..k], fds[i].left);
      assert fds[i].left == fds[k].left;
      GroupGrows(fds, k, m[names[k]]);
    } else {
      forall j | 0 <= j < k ensures fds[..k][j].left != fds[k].left {
        assert names[j] in m;
      }
      assert RightsOf(fds[..k], fds[k].left) == {};
      GroupGrows(fds, k, []);
      assert [] + [RightAttr(fds[k])] == [RightAttr(fds[k])];
    }
  }

  /** A group holding the right attributes of the first k FDs with fds[k]'s left side, plus fds[k]'s, holds those of the first k + 1. */
  lemma GroupGrows(fds: seq<FD>, k: nat, group: seq<nat>)
    requires k < |fds| && AllSimple(fds) && Elements(group) == RightsOf(fds[..k], fds[k].left)
    ensures Elements(group + [RightAttr(fds[k])]) == RightsOf(fds[..k + 1], fds[k].left)
  {
    SliceExtend(fds, k);
    RightsOfAppend(fds[..k], fds[k], fds[k].left);
    ElementsAppend(group, RightAttr(fds[k]));
  }

  /** Appending a to a group adds a to its elements. */
  lemma ElementsAppend(xs: seq<nat>, a: nat)
    ensures Elements(xs + [a]) == Elements(xs) + {a}
  {
  }

  /** Lists with the same left sides are keyable together. */
  lemma KeyableBySides(fds: seq<FD>, next: seq<FD>)
    requires KeyableLefts(fds) && LeftsOf(next) <= LeftsOf(fds)
    ensures KeyableLefts(next)
  {
    forall k | 0 <= k < |next| ensures next[k].left != {} && forall a :: a in next[k].left ==> a < MaxInt {
      assert next[k].left in LeftsOf(next);
      var m :| 0 <= m < |fds| && fds[m].left == next[k].left;
    }
  }

  /**
   * The second half of getCombinedFds part-way: one combined FD for every
   * key already taken out of keys (src names an FD with that key), none for
   * the others, no left side twice.
   */
  ghost predicate CombinedSoFar(fds: seq<FD>, names: seq<string>, combined: seq<FD>, src: seq<nat>, keys: set<string>)
    requires AllSimple(fds) && |names| == |fds|
  {
    CombinedFrom(fds, names, combined, src, keys) && CombinedCovers(fds, names, combined, keys)
    && LeftsSeparate(combined)
  }

  /** Each combined FD is the group of an FD whose key is already out of keys. */
  ghost predicate CombinedFrom(fds: seq<FD>, names: seq<string>, combined: seq<FD>, src: seq<nat>, keys: set<string>)
    requires AllSimple(fds) && |names| == |fds|
  {
    |src| == |combined|
    && forall c :: 0 <= c < |combined| ==>
         src[c] < |fds| && names[src[c]] !in keys
         && combined[c] == FD(fds[src[c]].left, RightsOf(fds, fds[src[c]].left))
  }

  /** Every FD whose key is out of keys has its left side among the combined FDs. */
  ghost predicate CombinedCovers(fds: seq<FD>, names: seq<string>, combined: seq<FD>, keys: set<string>)
    requires |names| == |fds|
  {
    forall i :: 0 <= i < |fds| && names[i] !in keys ==>
      exists c :: 0 <= c < |combined| && combined[c].left == fds[i].left
  }

  /** No left side occurs twice. */
  predicate LeftsSeparate(combined: seq<FD>) {
    forall c1, c2 :: 0 <= c1 < c2 < |combined| ==> combined[c1].left != combined[c2].left
  }

  /** Taking the key of fds[i] out of keys and emitting its group keeps CombinedSoFar. */
  lemma CombinedStep(fds: seq<FD>, names: seq<string>, combined: seq<FD>, src: seq<nat>, keys: set<string>, i: nat)
    requires AllSimple(fds) && NamesLefts(fds, names) && CombinedSoFar(fds, names, combined, src, keys)
    requires i < |fds| && names[i] in keys
    ensures CombinedSoFar(fds, names, combined + [FD(fds[i].left, RightsOf(fds, fds[i].left))], src + [i],
                          keys - {names[i]})
  {
    FromStep(fds, names, combined, src, keys, i);
    CoversStep(fds, names, combined, keys, i);
    SeparateStep(fds, names, combined, src, keys, i);
  }

  lemma FromStep(fds: seq<FD>, names: seq<string>, combined: seq<FD>, src: seq<nat>, keys: set<string>, i: nat)
    requires AllSimple(fds) && |names| == |fds| && CombinedFrom(fds, names, combined, src, keys)
    requires i < |fds| && names[i] in keys
    ensures CombinedFrom(fds, names, combined + [FD(fds[i].left, RightsOf(fds, fds[i].left))], src + [i],
                         keys - {names[i]})
  {
  }

  lemma CoversStep(fds: seq<FD>, names: seq<string>, combined: seq<FD>, keys: set<string>, i: nat)
    requires AllSimple(fds) && NamesLefts(fds, names) && CombinedCovers(fds, names, combined, keys)
    requires i < |fds|
    ensures CombinedCovers(fds, names, combined + [FD(fds[i].left, RightsOf(fds, fds[i].left))], keys - {names[i]})
  {
    var combined', keys' := combined + [FD(fds[i].left, RightsOf(fds, fds[i].left))], keys - {names[i]};
    forall i' | 0 <= i' < |fds| && names[i'] !in keys'
      ensures exists c :: 0 <= c < |combined'| && combined'[c].left == fds[i'].left
    {
      if names[i'] in keys {
        assert combined'[|combined|].left == fds[i'].left;
      } else {
        var c :| 0 <= c < |combined| && combined[c].left == fds[i'].left;
        assert combined'[c].left == fds[i'].left;
      }
    }
  }

  lemma SeparateStep(fds: seq<FD>, names: seq<string>, combined: seq<FD>, src: seq<nat>, keys: set<string>, i: nat)
    requires AllSimple(fds) && NamesLefts(fds, names) && CombinedFrom(fds, names, combined, src, keys)
    requires LeftsSeparate(combined) && i < |fds| && names[i] in keys
    ensures LeftsSeparate(combined + [FD(fds[i].left, RightsOf(fds, fds[i].left))])
  {
    forall c | 0 <= c < |combined| ensures combined[c].left != fds[i].left {
      assert names[src[c]] != names[i];
    }
  }

  /** With every key taken out, the emitted FDs are the grouping IsCombined describes. */
  lemma CombinedDone(fds: seq<FD>, names: seq<string>, combined: seq<FD>, src: seq<nat>, keys: set<string>)
    requires AllSimple(fds) && |names| == |fds| && CombinedSoFar(fds, names, combined, src, keys)
    requires forall i :: 0 <= i < |fds| ==> names[i] !in keys
    ensures IsCombined(fds, combined)
  {
    forall c | 0 <= c < |combined|
      ensures combined[c].left in LeftsOf(fds) && combined[c].right == RightsOf(fds, combined[c].left)
    {
      assert combined[c] == FD(fds[src[c]].left, RightsOf(fds, fds[src[c]].left));
      assert fds[src[c]].left in LeftsOf(fds);
    }
    forall k | 0 <= k < |fds| ensures exists i :: 0 <= i < |combined| && combined[i].left == fds[k].left {
      assert names[k] !in keys;
    }
    assert forall i :: 0 <= i < |combined| ==>
      combined[i].left in LeftsOf(fds) && combined[i].right == RightsOf(fds, combined[i].left);
    assert LeftsSeparate(combined);
  }

  /**
   * One turn of getCombinedFds' second loop: the key names some fds[i],
   * parses back to its left side, and emitting its group keeps
   * CombinedSoFar.
   */
  lemma EmitGroup(fds: seq<FD>, names: seq<string>, m: map<string, seq<nat>>, combined: seq<FD>, src: seq<nat>,
                  keys: set<string>, key: string) returns (i: nat)
    requires AllSimple(fds) && NamesLefts(fds, names) && KeysParse(fds, names)
    requires GroupedUpTo(fds, names, |fds|, m) && CombinedSoFar(fds, names, combined, src, keys)
    requires keys <= m.Keys && key in keys
    ensures i < |fds| && ParseLeftSide(key) == Some(fds[i].left) && Elements(m[key]) == RightsOf(fds, fds[i].left)
    ensures CombinedSoFar(fds, names, combined + [FD(fds[i].left, RightsOf(fds, fds[i].left))], src + [i], keys - {key})
  {
    assert fds[..|fds|] == fds;
    i :| 0 <= i < |fds| && names[i] == key && Elements(m[key]) == RightsOf(fds, fds[i].left);
    CombinedStep(fds, names, combined, src, keys, i);
  }

  /** getCombinedFds' first loop: file every right attribute under the text of its FD's left side. */
  method GroupByLeftSide(fds: seq<FD>) returns (fdMap: map<string, seq<nat>>)
    requires AllSimple(fds) && KeyableLefts(fds)
    ensures GroupedUpTo(fds, LeftKeys(fds), |fds|, fdMap)
  {
    ghost var names := LeftKeys(fds);
    LeftKeysSeparate(fds);
    fdMap := map[];
    for k := 0 to |fds|
      invariant GroupedUpTo(fds, names, k, fdMap)
    {
      var fd := fds[k];
      var left := LeftSideToString(fd);
      LeftKeyAt(fds, k);
      GroupStep(fds, names, k, fdMap);
      fdMap := AddToGroup(fdMap, left, RightAttr(fd));
    }
  }

  /** getCombinedFds' second loop: one FD per key, from the parsed key to the key's right attributes. */
  method CombineGroups(fds: seq<FD>, ghost names: seq<string>, fdMap: map<string, seq<nat>>) returns (combined: seq<FD>)
    requires AllSimple(fds) && NamesLefts(fds, names) && KeysParse(fds, names)
    requires GroupedUpTo(fds, names, |fds|, fdMap)
    ensures IsCombined(fds, combined)
  {
    combined := [];
    ghost var src: seq<nat> := [];
    var keys := fdMap.Keys;
    while keys != {}
      invariant keys <= fdMap.Keys && CombinedSoFar(fds, names, combined, src, keys)
      decreases |keys|
    {
      var key :| key in keys;
      ghost var i := EmitGroup(fds, names, fdMap, combined, src, keys, key);
      var leftSide := ParseLeftSide(key).value;
      combined := combined + [FD(leftSide, Elements(fdMap[key]))];
      src := src + [i];
      keys := keys - {key};
    }
    CombinedDone(fds, names, combined, src, keys);
  }
}
