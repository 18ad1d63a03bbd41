/**
 The shape of a path-compressed binary trie, without the heap: which prefixes it stores, which
 stored prefix hangs from each branch, and where each stored prefix hangs from.

 A structure is linked when every branch leads to an extension of its prefix and every stored
 extension is reached through that branch.  Three edits are enough for the routing table:
 hanging a leaf in an empty slot, splicing a prefix in above an occupied slot, and unlinking a
 prefix with at most one child.  Each keeps the structure linked.
 */
module PrefixLinks {
  import opened AddressBits
  import opened Wrappers

  datatype Kids = Kids(zero: Option<BitString>, one: Option<BitString>) {
    function Get(b: bool): Option<BitString> { if b then one else zero }

    function Set(b: bool, k: Option<BitString>): Kids { if b then this.(one := k) else this.(zero := k) }
  }

  /** The slot a prefix hangs from. */
  datatype Place = AtRoot | Under(prefix: BitString, bit: bool)

  datatype Links = Links(root: Option<BitString>, kids: map<BitString, Kids>, up: map<BitString, Place>) {

    predicate HasPlace(at: Place) {
      at.Under? ==> at.prefix in kids
    }

    function Get(at: Place): Option<BitString>
      requires HasPlace(at)
    {
      match at
      case AtRoot => root
      case Under(p, b) => kids[p].Get(b)
    }

    function Put(at: Place, k: Option<BitString>): Links
      requires HasPlace(at)
    {
      match at
      case AtRoot => this.(root := k)
      case Under(p, b) => this.(kids := kids[p := kids[p].Set(b, k)])
    }
  }

  /** Whether a slot may hold prefix q: it lies on the branch the slot stands for. */
  predicate Fits(at: Place, q: BitString) {
    at.Under? ==> at.prefix < q && q[|at.prefix|] == at.bit
  }

  /** Two prefixes that fit one slot still fit it where they part. */
  lemma PartBelow(at: Place, a: BitString, d: nat, s: BitString, k: nat)
    requires |a| == |s| && d <= |a| && k <= |s|
    requires Fits(at, a[..d]) && Fits(at, s[..k]) && !(a[..d] <= s[..k])
    ensures var c := CommonPrefix(a, s);
            if c >= k then s[..k] < a[..d]
            else c < d && s[..c] < s[..k] && s[..c] < a[..d] && s[..k][c] != a[..d][c] && Fits(at, s[..c])
  {
    var m := if at.AtRoot? then 0 else |at.prefix| + 1;
    if at.Under? { SameBranch(at.prefix, a[..d], s[..k]); }
    assert a[..m] == a[..d][..m] && s[..m] == s[..k][..m];
    PrefixesPart(a, d, s, k, m);
    var c := CommonPrefix(a, s);
    if c < k { assert s[..c][..m] == s[..k][..m]; }
  }

  ghost predicate SlotOk(l: Links, at: Place) {
    && (at.Under? ==> at.prefix in l.kids)
    && (l.Get(at).Some? ==>
          var c := l.Get(at).value;
          c in l.kids && Fits(at, c) && c in l.up && l.up[c] == at)
  }

  ghost predicate PrefixOk(l: Links, q: BitString) {
    && q in l.up
    && l.HasPlace(l.up[q])
    && l.Get(l.up[q]) == Some(q)
  }

  /** A stored prefix that fits a slot is reached through that slot. */
  ghost predicate Reached(l: Links, at: Place, q: BitString)
    requires l.HasPlace(at)
  {
    l.Get(at).Some? && l.Get(at).value <= q
  }

  ghost predicate Linked(l: Links) {
    && l.up.Keys == l.kids.Keys
    && (forall at {:trigger SlotOk(l, at)} :: l.HasPlace(at) ==> SlotOk(l, at))
    && (forall q {:trigger PrefixOk(l, q)} :: q in l.kids ==> PrefixOk(l, q))
    && (forall at, q {:trigger Reached(l, at, q)} :: l.HasPlace(at) && q in l.kids && Fits(at, q) ==> Reached(l, at, q))
  }

  /** A stored prefix refers only to stored prefixes, and those refer back. */
  lemma Neighbours(l: Links, q: BitString)
    requires Linked(l) && q in l.kids
    ensures q in l.up && l.HasPlace(l.up[q]) && l.Get(l.up[q]) == Some(q) && Fits(l.up[q], q)
    ensures forall b :: l.kids[q].Get(b).Some? ==>
              var c := l.kids[q].Get(b).value; c in l.kids && q < c && c[|q|] == b && c in l.up && l.up[c] == Under(q, b)
  {
    assert PrefixOk(l, q) && SlotOk(l, l.up[q]);
    forall b | l.kids[q].Get(b).Some?
      ensures var c := l.kids[q].Get(b).value; c in l.kids && q < c && c[|q|] == b && c in l.up && l.up[c] == Under(q, b)
    {
      assert SlotOk(l, Under(q, b));
    }
  }

  lemma RootStored(l: Links)
    requires Linked(l)
    ensures l.root.Some? ==> l.root.value in l.kids && l.root.value in l.up && l.up[l.root.value] == AtRoot
  {
    assert SlotOk(l, AtRoot);
  }

  predicate Full(l: Links, q: BitString) {
    q in l.kids && l.kids[q].zero.Some? && l.kids[q].one.Some?
  }

  // ---------------------------------------------------------------- the three edits

  function HangLeaf(l: Links, at: Place, p: BitString): Links
    requires l.HasPlace(at)
  {
    l.(kids := l.kids[p := Kids(None, None)], up := l.up[p := at]).Put(at, Some(p))
  }

  lemma HangLeafKeepsLinked(l: Links, at: Place, p: BitString)
    requires Linked(l) && l.HasPlace(at) && Fits(at, p) && l.Get(at) == None && p !in l.kids
    ensures Linked(HangLeaf(l, at, p))
  {
    var m := HangLeaf(l, at, p);
    forall a | m.HasPlace(a) ensures SlotOk(m, a) {
      if l.HasPlace(a) { assert SlotOk(l, a); }
    }
    forall q | q in m.kids ensures PrefixOk(m, q) {
      if q != p { assert PrefixOk(l, q); }
    }
    forall a, q | m.HasPlace(a) && q in m.kids && Fits(a, q) ensures Reached(m, a, q) {
      EmptySlot(l, at, q);
      if q == p && a != at {
        SlotOnTheWay(l, at, a, p);
      } else if l.HasPlace(a) {
        assert q in l.kids ==> Reached(l, a, q);
      }
    }
  }

  lemma EmptySlot(l: Links, at: Place, q: BitString)
    requires Linked(l) && l.HasPlace(at) && l.Get(at) == None
    ensures q in l.kids ==> !Fits(at, q)
  {
    assert q in l.kids && Fits(at, q) ==> Reached(l, at, q);
  }

  /** Another slot on the way to p leads to something p extends, if nothing stored lies between at and p. */
  lemma SlotOnTheWay(l: Links, at: Place, a: Place, p: BitString)
    requires Linked(l) && l.HasPlace(at) && l.HasPlace(a) && a != at && Fits(at, p) && Fits(a, p)
    requires l.Get(at).Some? ==> p < l.Get(at).value
    ensures Reached(l, a, p)
  {
    if a.Under? {
      assert Fits(at, a.prefix) ==> Reached(l, at, a.prefix);
    }
    if at.Under? {
      assert Fits(a, at.prefix) ==> Reached(l, a, at.prefix);
    }
  }

  function SpliceAbove(l: Links, at: Place, p: BitString, d: BitString): Links
    requires l.HasPlace(at) && |p| < |d|
  {
    l.(kids := l.kids[p := Kids(None, None).Set(d[|p|], Some(d))],
       up := l.up[p := at][d := Under(p, d[|p|])]).Put(at, Some(p))
  }

  lemma SpliceAboveKeepsLinked(l: Links, at: Place, p: BitString, d: BitString)
    requires Linked(l) && l.HasPlace(at) && Fits(at, p) && l.Get(at) == Some(d) && p < d && p !in l.kids
    ensures Linked(SpliceAbove(l, at, p, d))
  {
    var m := SpliceAbove(l, at, p, d);
    assert SlotOk(l, at);
    forall a | m.HasPlace(a) ensures SlotOk(m, a) {
      if l.HasPlace(a) { assert SlotOk(l, a); }
    }
    forall q | q in m.kids ensures PrefixOk(m, q) {
      if q != p { assert PrefixOk(l, q); }
    }
    forall a, q | m.HasPlace(a) && q in m.kids && Fits(a, q) ensures Reached(m, a, q) {
      if q == p && a != at {
        SlotOnTheWay(l, at, a, p);
      } else if q != p {
        assert l.HasPlace(a) ==> Reached(l, a, q);
        assert Fits(at, q) ==> Reached(l, at, q);
      }
    }
  }

  /** Adding prefixes never empties a branch. */
  lemma HangLeafFull(l: Links, at: Place, p: BitString, q: BitString)
    requires l.HasPlace(at) && p !in l.kids && Full(l, q)
    ensures Full(HangLeaf(l, at, p), q)
  {
  }

  lemma SpliceAboveFull(l: Links, at: Place, p: BitString, d: BitString, q: BitString)
    requires l.HasPlace(at) && |p| < |d| && p !in l.kids && Full(l, q)
    ensures Full(SpliceAbove(l, at, p, d), q)
  {
  }

  /** The structure with a fork s above d and a leaf p on the fork's other branch. */
  function Forked(l: Links, at: Place, s: BitString, d: BitString, p: BitString): Links
    requires l.HasPlace(at) && |s| < |d| && |s| < |p|
  {
    var m := SpliceAbove(l, at, s, d);
    HangLeaf(m, Under(s, p[|s|]), p)
  }

  lemma ForkedFull(l: Links, at: Place, s: BitString, d: BitString, p: BitString)
    requires l.HasPlace(at) && s !in l.kids && p !in l.kids && s != p
    requires |s| < |d| && |s| < |p| && p[|s|] != d[|s|]
    ensures SpliceAbove(l, at, s, d).Get(Under(s, p[|s|])) == None
    ensures Full(Forked(l, at, s, d, p), s)
    ensures forall q :: Full(l, q) ==> Full(Forked(l, at, s, d, p), q)
  {
    var m := SpliceAbove(l, at, s, d);
    forall q | Full(l, q) ensures Full(Forked(l, at, s, d, p), q) {
      SpliceAboveFull(l, at, s, d, q);
      HangLeafFull(m, Under(s, p[|s|]), p, q);
    }
  }

  /** What splicing changes: the slot, the new prefix, and where the one below hangs from. */
  lemma SpliceAboveEffect(l: Links, at: Place, p: BitString, d: BitString)
    requires Linked(l) && l.HasPlace(at) && l.Get(at) == Some(d) && p < d && p !in l.kids
    ensures var m := SpliceAbove(l, at, p, d);
            && m.kids.Keys == l.kids.Keys + {p} && m.HasPlace(at) && m.Get(at) == Some(p)
            && m.kids[p] == Kids(None, None).Set(d[|p|], Some(d)) && p in m.up && m.up[p] == at
            && d in m.up && m.up[d] == Under(p, d[|p|])
            && (at.Under? ==> m.root == l.root && m.kids[at.prefix] == l.kids[at.prefix].Set(at.bit, Some(p)))
            && (forall q :: q in l.kids && (at.Under? ==> q != at.prefix) ==> m.kids[q] == l.kids[q])
            && (forall q :: q in l.kids && q != d ==> q in m.up && m.up[q] == l.up[q])
  {
  }

  function OnlyKid(k: Kids): Option<BitString> {
    k.Get(k.zero == None)
  }

  function Unlink(l: Links, k: BitString): Links
    requires k in l.kids && k in l.up && l.HasPlace(l.up[k]) && l.up[k] != Under(k, false) && l.up[k] != Under(k, true)
  {
    var at, c := l.up[k], OnlyKid(l.kids[k]);
    l.(kids := l.kids - {k}, up := if c.Some? then (l.up - {k})[c.value := at] else l.up - {k}).Put(at, c)
  }

  /** What unlinking relies on: the prefix is stored and has at most one child. */
  ghost predicate Unlinkable(l: Links, k: BitString) {
    Linked(l) && k in l.kids && (l.kids[k].zero == None || l.kids[k].one == None)
  }

  lemma UnlinkSlots(l: Links, k: BitString, a: Place)
    requires Unlinkable(l, k) && a != Under(k, false) && a != Under(k, true) && l.HasPlace(a)
    ensures k in l.up && l.HasPlace(l.up[k]) && Fits(l.up[k], k)
    ensures SlotOk(Unlink(l, k), a)
  {
    Neighbours(l, k);
    assert SlotOk(l, a) && SlotOk(l, Under(k, false)) && SlotOk(l, Under(k, true));
  }

  lemma UnlinkPrefixes(l: Links, k: BitString, q: BitString)
    requires Unlinkable(l, k) && q in l.kids && q != k
    ensures k in l.up && l.HasPlace(l.up[k]) && Fits(l.up[k], k)
    ensures PrefixOk(Unlink(l, k), q)
  {
    Neighbours(l, k);
    Neighbours(l, q);
    assert SlotOk(l, Under(k, false)) && SlotOk(l, Under(k, true));
  }

  lemma UnlinkReached(l: Links, k: BitString, a: Place, q: BitString)
    requires Unlinkable(l, k) && a != Under(k, false) && a != Under(k, true)
    requires l.HasPlace(a) && q in l.kids && q != k && Fits(a, q)
    ensures k in l.up && l.HasPlace(l.up[k]) && Fits(l.up[k], k)
    ensures Unlink(l, k).HasPlace(a) && Reached(Unlink(l, k), a, q)
  {
    Neighbours(l, k);
    assert Reached(l, a, q);
    if a == l.up[k] {
      assert Reached(l, Under(k, q[|k|]), q);
    } else {
      assert SlotOk(l, a);
    }
  }

  lemma UnlinkKeepsLinked(l: Links, k: BitString)
    requires Unlinkable(l, k)
    ensures k in l.up && l.HasPlace(l.up[k]) && Fits(l.up[k], k)
    ensures Linked(Unlink(l, k))
  {
    Neighbours(l, k);
    var m := Unlink(l, k);
    assert SlotOk(l, Under(k, false)) && SlotOk(l, Under(k, true));
    forall a | m.HasPlace(a) ensures SlotOk(m, a) { UnlinkSlots(l, k, a); }
    forall q | q in m.kids ensures PrefixOk(m, q) { UnlinkPrefixes(l, k, q); }
    forall a, q | m.HasPlace(a) && q in m.kids && Fits(a, q) ensures Reached(m, a, q) { UnlinkReached(l, k, a, q); }
  }

  /** Unlinking leaves every other full prefix full, except where the slot it hung from is left empty. */
  lemma UnlinkFull(l: Links, k: BitString, q: BitString)
    requires Unlinkable(l, k) && Full(l, q) && q != k
    requires OnlyKid(l.kids[k]).Some? || l.up[k] == AtRoot || (l.up[k].Under? && l.up[k].prefix != q)
    ensures k in l.up && l.HasPlace(l.up[k]) && Fits(l.up[k], k)
    ensures Full(Unlink(l, k), q)
  {
    Neighbours(l, k);
  }

  /** Unlinking a leaf empties its slot and nothing else. */
  lemma UnlinkLeaf(l: Links, k: BitString)
    requires Linked(l) && k in l.kids && l.kids[k] == Kids(None, None)
    ensures k in l.up && l.HasPlace(l.up[k]) && Fits(l.up[k], k)
    ensures l.up[k].Under? ==>
              var m, p, b := Unlink(l, k), l.up[k].prefix, l.up[k].bit;
              p in m.kids && m.kids[p].Get(b) == None && m.kids[p].Get(!b) == l.kids[p].Get(!b) && m.up[p] == l.up[p]
  {
    Neighbours(l, k);
  }

  /** What unlinking changes: the prefix goes, and its only child, if any, moves to the slot it hung from. */
  lemma UnlinkEffect(l: Links, k: BitString)
    requires Unlinkable(l, k)
    ensures k in l.up && l.HasPlace(l.up[k]) && Fits(l.up[k], k)
    ensures var m, at, c := Unlink(l, k), l.up[k], OnlyKid(l.kids[k]);
            && m.kids.Keys == l.kids.Keys - {k} && m.HasPlace(at) && m.Get(at) == c
            && (c.Some? ==> c.value in m.kids && c.value in l.kids && c.value in m.up && m.up[c.value] == at)
            && (at.Under? ==> m.root == l.root && m.kids[at.prefix] == l.kids[at.prefix].Set(at.bit, c))
            && (forall q :: q in m.kids && (at.Under? ==> q != at.prefix) ==> m.kids[q] == l.kids[q])
            && (forall q :: q in m.kids && (c.Some? ==> q != c.value) ==> q in m.up && m.up[q] == l.up[q])
  {
    Neighbours(l, k);
  }

  // ---------------------------------------------------------------- how many nodes

  function Extensions(keys: set<BitString>, p: BitString): set<BitString> {
    set q | q in keys && p <= q
  }

  lemma SplitExtensions(keys: set<BitString>, p: BitString)
    ensures Extensions(keys, p) == (if p in keys then {p} else {}) + Extensions(keys, p + [false]) + Extensions(keys, p + [true])
    ensures Extensions(keys, p + [false]) !! Extensions(keys, p + [true])
    ensures p !in Extensions(keys, p + [false]) && p !in Extensions(keys, p + [true])
  {
    forall q | q in keys
      ensures p <= q <==> q == p || p + [false] <= q || p + [true] <= q
      ensures !(p + [false] <= q && p + [true] <= q)
    {
      ExtendsByBit(p, false, q);
      ExtendsByBit(p, true, q);
    }
  }

  lemma ExtendsByBit(p: BitString, b: bool, q: BitString)
    ensures p + [b] <= q <==> p < q && q[|p|] == b
  {
    if p < q { assert q[..|p| + 1] == p + [q[|p|]]; }
    if p + [b] <= q { assert q[|p|] == (p + [b])[|p|]; }
  }

  /** Where every prefix outside s branches both ways, prefixes outside s are fewer than those in s. */
  lemma {:induction false} FewForks(keys: set<BitString>, s: set<BitString>, p: BitString, depth: nat)
    requires forall q :: q in keys ==> |q| <= |p| + depth
    requires forall q :: q in keys && q !in s ==> Extensions(keys, q + [false]) != {} && Extensions(keys, q + [true]) != {}
    ensures Extensions(keys, p) != {} ==> |Extensions(keys, p)| <= 2 * |Extensions(keys, p) * s| - 1
    decreases depth
  {
    var e, e0, e1 := Extensions(keys, p), Extensions(keys, p + [false]), Extensions(keys, p + [true]);
    var here := if p in keys then {p} else {};
    SplitExtensions(keys, p);
    assert e * s == here * s + e0 * s + e1 * s;
    if depth == 0 {
      assert e0 == {} && e1 == {};
    } else {
      FewForks(keys, s, p + [false], depth - 1);
      FewForks(keys, s, p + [true], depth - 1);
    }
  }

  /** A linked structure in which every prefix outside s is full stores at most 2|s| - 1 prefixes. */
  lemma FewNodes(l: Links, s: set<BitString>, depth: nat)
    requires Linked(l) && l.kids.Keys != {} && s <= l.kids.Keys
    requires forall q :: q in l.kids ==> |q| <= depth
    requires forall q :: q in l.kids && q !in s ==> Full(l, q)
    ensures |l.kids.Keys| <= 2 * |s| - 1
  {
    forall q | q in l.kids && q !in s
      ensures Extensions(l.kids.Keys, q + [false]) != {} && Extensions(l.kids.Keys, q + [true]) != {}
    {
      Neighbours(l, q);
      var c, d := l.kids[q].Get(false).value, l.kids[q].Get(true).value;
      assert c[..|q| + 1] == q + [false] && d[..|q| + 1] == q + [true];
      assert c in Extensions(l.kids.Keys, q + [false]) && d in Extensions(l.kids.Keys, q + [true]);
    }
    FewForks(l.kids.Keys, s, [], depth);
    assert Extensions(l.kids.Keys, []) == l.kids.Keys;
    assert l.kids.Keys * s == s;
  }
}
