/**
 * The child lists of TinyXML nodes (tinyxml.cpp): doubly linked siblings with a parent
 * pointer, rewired in place. A clone of a node comes in as a node without a parent.
 */
module XmlNode {
  import opened Wrappers

  /** The pointers of a node, and the children they describe. */
  datatype Links = Links(parent: Node?, first: Node?, last: Node?, prev: Node?, next: Node?, kids: seq<Node>)

  /** The pointers of all nodes at one time. */
  type World = map<Node, Links>

  // ------------------------------------------------ what the pointers must say

  ghost predicate Distinct(list: seq<Node>) {
    forall i, j :: 0 <= i < j < |list| ==> list[i] != list[j]
  }

  /** Element i of a list, or null beyond its ends. */
  ghost function Nth(list: seq<Node>, i: int): Node? {
    if 0 <= i < |list| then list[i] else null
  }

  /** Child i of p points to its parent and its neighbours. */
  ghost predicate Linked(w: World, p: Node, list: seq<Node>, i: int)
    requires 0 <= i < |list| && list[i] in w
  {
    w[list[i]].parent == p && w[list[i]].prev == Nth(list, i - 1) && w[list[i]].next == Nth(list, i + 1)
  }

  /** The pointers of p and its children say what the list of children is. */
  ghost predicate ListOk(w: World, p: Node)
    requires p in w
  {
    var list := w[p].kids;
    && (forall k :: k in list ==> k in w)
    && w[p].first == Nth(list, 0) && w[p].last == Nth(list, |list| - 1)
    && (forall i :: 0 <= i < |list| ==> Linked(w, p, list, i))
    && Distinct(list)
  }

  /** Every list is in order, and every node with a parent is one of its children, but not its own. */
  ghost predicate Valid(w: World) {
    && (forall n :: n in w ==> ListOk(w, n) && w[n].parent != n)
    && forall n :: n in w && w[n].parent != null ==> w[n].parent in w && n in w[w[n].parent].kids
  }

  // ------------------------------------------------ one list changes

  /** The list of children with those from i to j replaced by at most one node. */
  ghost function Splice(list: seq<Node>, i: nat, j: nat, mid: Option<Node>): seq<Node>
    requires i <= j <= |list|
  {
    list[..i] + (if mid.Some? then [mid.value] else []) + list[j..]
  }

  /** Parent and neighbours of a node. */
  function Place(l: Links): (Node?, Node?, Node?) {
    (l.parent, l.prev, l.next)
  }

  predicate SameList(l: Links, m: Links) {
    m.kids == l.kids && m.first == l.first && m.last == l.last
  }

  /** The pointers after the children of p from i to j have been replaced. */
  ghost predicate Spliced(w: World, w': World, p: Node, i: nat, j: nat, mid: Option<Node>)
    requires p in w && i <= j <= |w[p].kids|
  {
    var list, list' := w[p].kids, Splice(w[p].kids, i, j, mid);
    && w'.Keys == w.Keys && (forall k :: k in list ==> k in w) && (mid.Some? ==> mid.value in w)
    && w'[p].kids == list' && w'[p].first == Nth(list', 0) && w'[p].last == Nth(list', |list'| - 1)
    && (forall n :: n in w && n != p ==> SameList(w[n], w'[n]))
    && (forall n :: n in w && Bystander(list, i, j, mid, n) ==> Place(w'[n]) == Place(w[n]))
    && (i > 0 ==> Place(w'[list[i - 1]]) == (w[list[i - 1]].parent, w[list[i - 1]].prev, Nth(list', i)))
    && (j < |list| ==>
          Place(w'[list[j]]) == (w[list[j]].parent, if mid.Some? then mid.value else Nth(list, i - 1), w[list[j]].next))
    && (mid.Some? ==> Place(w'[mid.value]) == (p, Nth(list, i - 1), Nth(list, j)))
  }

  /** n is neither the new node, nor replaced, nor next to it. */
  ghost predicate Bystander(list: seq<Node>, i: nat, j: nat, mid: Option<Node>, n: Node)
    requires i <= j <= |list|
  {
    n != Nth(list, i - 1) && n != Nth(list, j) && (mid.Some? ==> n != mid.value) && n !in list[i..j]
  }

  /** Where element m of the spliced list was before; the new node is not at such a place. */
  lemma SpliceAt(list: seq<Node>, i: nat, j: nat, mid: Option<Node>, m: nat)
    requires i <= j <= |list| && m < |Splice(list, i, j, mid)|
    ensures var list', d := Splice(list, i, j, mid), if mid.Some? then 1 else 0;
            && |list'| == i + d + (|list| - j)
            && list'[m] == if m < i then list[m] else if m < i + d then mid.value else list[m - i - d + j]
  {
  }

  /** Elements away from the gap are bystanders. */
  lemma AwayFromGap(list: seq<Node>, i: nat, j: nat, mid: Option<Node>, m: nat)
    requires i <= j <= |list| && m < |list| && Distinct(list) && 
             (mid.Some? ==> mid.value !in list[..i] && mid.value !in list[j..])
    requires m + 1 < i || m > j
    ensures Bystander(list, i, j, mid, list[m])
  {
    assert m < i ==> list[..i][m] == list[m];
    assert m > j ==> list[j..][m - j] == list[m];
  }

  /** The new list is in order. */
  lemma SplicedListOk(w: World, w': World, p: Node, i: nat, j: nat, mid: Option<Node>)
    requires p in w && ListOk(w, p) && i <= j <= |w[p].kids| && Spliced(w, w', p, i, j, mid)
    requires mid.Some? ==> mid.value !in w[p].kids
    ensures ListOk(w', p)
  {
    var list, list' := w[p].kids, w'[p].kids;
    forall m | 0 <= m < |list'| ensures list'[m] in w' && Linked(w', p, list', m) {
      SplicedLinked(w, w', p, i, j, mid, m);
    }
    SplicedDistinct(list, i, j, mid);
  }

  lemma SplicedDistinct(list: seq<Node>, i: nat, j: nat, mid: Option<Node>)
    requires i <= j <= |list| && Distinct(list) && (mid.Some? ==> mid.value !in list)
    ensures Distinct(Splice(list, i, j, mid))
  {
    var list' := Splice(list, i, j, mid);
    forall m, n | 0 <= m < n < |list'| ensures list'[m] != list'[n] {
      SpliceAt(list, i, j, mid, m);
      SpliceAt(list, i, j, mid, n);
    }
  }

  lemma SplicedLinked(w: World, w': World, p: Node, i: nat, j: nat, mid: Option<Node>, m: nat)
    requires p in w && ListOk(w, p) && i <= j <= |w[p].kids| && Spliced(w, w', p, i, j, mid)
    requires (mid.Some? ==> mid.value !in w[p].kids) && m < |w'[p].kids|
    ensures w'[p].kids[m] in w' && Linked(w', p, w'[p].kids, m)
  {
    var list, list', d := w[p].kids, w'[p].kids, if mid.Some? then 1 else 0;
    SpliceAt(list, i, j, mid, m);
    if m < i {
      LeftLinked(w, w', p, i, j, mid, m);
    } else if m >= i + d {
      RightLinked(w, w', p, i, j, mid, m, m - i - d + j);
    } else {
      SpliceNeighbours(list, i, j, mid, m);
    }
  }

  /** What is before and after element m of the spliced list. */
  lemma SpliceNeighbours(list: seq<Node>, i: nat, j: nat, mid: Option<Node>, m: nat)
    requires i <= j <= |list| && m < |Splice(list, i, j, mid)|
    ensures var list', d := Splice(list, i, j, mid), if mid.Some? then 1 else 0;
            && (m < i ==> Nth(list', m - 1) == Nth(list, m - 1))
            && (m + 1 < i ==> Nth(list', m + 1) == Nth(list, m + 1))
            && (m > i + d ==> Nth(list', m - 1) == Nth(list, m - 1 - i - d + j))
            && (m >= i + d ==> Nth(list', m + 1) == Nth(list, m + 1 - i - d + j))
            && (m == i + d ==> Nth(list', m - 1) == if mid.Some? then mid.value else Nth(list, i - 1))
            && (mid.Some? && m == i ==> Nth(list', m - 1) == Nth(list, i - 1) && Nth(list', m + 1) == Nth(list, j))
  {
    SpliceAt(list, i, j, mid, m);
    if m > 0 { SpliceAt(list, i, j, mid, m - 1); }
    if m + 1 < |Splice(list, i, j, mid)| { SpliceAt(list, i, j, mid, m + 1); }
  }

  lemma LeftLinked(w: World, w': World, p: Node, i: nat, j: nat, mid: Option<Node>, m: nat)
    requires p in w && ListOk(w, p) && i <= j <= |w[p].kids| && Spliced(w, w', p, i, j, mid)
    requires (mid.Some? ==> mid.value !in w[p].kids) && m < i && w'[p].kids[m] == w[p].kids[m]
    ensures w'[p].kids[m] in w' && Linked(w', p, w'[p].kids, m)
  {
    var list := w[p].kids;
    assert Linked(w, p, list, m);
    SpliceNeighbours(list, i, j, mid, m);
    if m + 1 < i { AwayFromGap(list, i, j, mid, m); }
  }

  lemma RightLinked(w: World, w': World, p: Node, i: nat, j: nat, mid: Option<Node>, m: nat, was: nat)
    requires p in w && ListOk(w, p) && i <= j <= was < |w[p].kids| && Spliced(w, w', p, i, j, mid)
    requires (mid.Some? ==> mid.value !in w[p].kids) && i <= m < |w'[p].kids| && w'[p].kids[m] == w[p].kids[was]
    requires was == m - i - (if mid.Some? then 1 else 0) + j
    ensures w'[p].kids[m] in w' && Linked(w', p, w'[p].kids, m)
  {
    var list := w[p].kids;
    assert Linked(w, p, list, was);
    SpliceNeighbours(list, i, j, mid, m);
    if was > j { AwayFromGap(list, i, j, mid, was); }
  }

  // ------------------------------------------------ every list

  /** A spliced list without anything taken out leaves all lists in order. */
  lemma SplicedValid(w: World, w': World, p: Node, i: nat, mid: Node)
    requires Valid(w) && p in w && i <= |w[p].kids| && Spliced(w, w', p, i, i, Some(mid))
    requires w[mid].parent == null && mid != p
    ensures Valid(w')
  {
    var list := w[p].kids;
    assert ListOk(w, p);
    forall k | k in list ensures w[k].parent == p { ChildsParent(w, p, k); }
    SplicedListOk(w, w', p, i, i, Some(mid));
    forall n | n in w' ensures ListOk(w', n) && w'[n].parent != n {
      if n != p { OtherListOk(w, w', p, i, i, Some(mid), n); }
      if n != mid { ParentKept(w, w', p, i, i, Some(mid), n); }
    }
    forall n | n in w' && w'[n].parent != null ensures w'[n].parent in w' && n in w'[w'[n].parent].kids {
      if n != mid {
        ParentKept(w, w', p, i, i, Some(mid), n);
      }
      SpliceMember(list, i, i, Some(mid), n);
    }
  }

  lemma ChildsParent(w: World, p: Node, k: Node)
    requires p in w && ListOk(w, p) && k in w[p].kids
    ensures k in w && w[k].parent == p
  {
    var i :| 0 <= i < |w[p].kids| && w[p].kids[i] == k;
    assert Linked(w, p, w[p].kids, i);
  }

  lemma SpliceMember(list: seq<Node>, i: nat, j: nat, mid: Option<Node>, n: Node)
    requires i <= j <= |list|
    ensures n in Splice(list, i, j, mid) <==> n in list[..i] || n in list[j..] || (mid.Some? && n == mid.value)
    ensures i == j && n in list ==> n in list[..i] || n in list[j..]
  {
    assert i == j ==> list == list[..i] + list[j..];
  }

  /** The parent of a node that is not replaced and not new is as before. */
  lemma ParentKept(w: World, w': World, p: Node, i: nat, j: nat, mid: Option<Node>, n: Node)
    requires p in w && i <= j <= |w[p].kids| && Spliced(w, w', p, i, j, mid)
    requires n in w && n !in w[p].kids[i..j] && (mid.Some? ==> n != mid.value)
    ensures w'[n].parent == w[n].parent
  {
    assert Bystander(w[p].kids, i, j, mid, n) || n == Nth(w[p].kids, i - 1) || n == Nth(w[p].kids, j);
  }

  /** Whoever is not a child of p and not new is a bystander. */
  lemma OutsiderStands(list: seq<Node>, i: nat, j: nat, mid: Option<Node>, k: Node)
    requires i <= j <= |list| && k !in list && (mid.Some? ==> k != mid.value)
    ensures Bystander(list, i, j, mid, k)
  {
  }

  /** A child of another node has not moved. */
  lemma KidStays(w: World, w': World, p: Node, i: nat, j: nat, mid: Option<Node>, n: Node, k: Node)
    requires p in w && n in w && ListOk(w, p) && ListOk(w, n) && i <= j <= |w[p].kids| && Spliced(w, w', p, i, j, mid)
    requires n != p && k in w[n].kids && (mid.Some? ==> w[mid.value].parent != n)
    ensures k in w && Place(w'[k]) == Place(w[k])
  {
    ChildsParent(w, n, k);
    if k in w[p].kids { ChildsParent(w, p, k); }
    OutsiderStands(w[p].kids, i, j, mid, k);
  }

  /** The list of any other node is in order, as its children have not moved. */
  lemma OtherListOk(w: World, w': World, p: Node, i: nat, j: nat, mid: Option<Node>, n: Node)
    requires Valid(w) && p in w && i <= j <= |w[p].kids| && Spliced(w, w', p, i, j, mid)
    requires n in w && n != p && (mid.Some? ==> w[mid.value].parent != n)
    ensures ListOk(w', n)
  {
    assert ListOk(w, n) && ListOk(w, p);
    forall m | 0 <= m < |w'[n].kids| ensures Linked(w', n, w'[n].kids, m) {
      assert Linked(w, n, w[n].kids, m);
      KidStays(w, w', p, i, j, mid, n, w[n].kids[m]);
    }
  }

  /** x and everything below it. */
  ghost predicate Branch(w: World, x: Node, branch: set<Node>) {
    && x in branch && branch <= w.Keys
    && (forall n, k :: n in branch && k in w[n].kids ==> k in branch)
    && forall n :: n in branch && n != x ==> w[n].parent in branch
  }

  function Without(w: World, gone: set<Node>): World {
    map n | n in w && n !in gone :: w[n]
  }

  /** When a child and everything below it is deleted, the remaining lists are in order. */
  lemma DeletedValid(w: World, w': World, p: Node, i: nat, mid: Option<Node>, branch: set<Node>)
    requires Valid(w) && p in w && i < |w[p].kids| && Spliced(w, w', p, i, i + 1, mid)
    requires mid.Some? ==> w[mid.value].parent == null && mid.value != p
    requires Branch(w, w[p].kids[i], branch) && p !in branch
    ensures Valid(Without(w', branch))
  {
    var x, list, rest := w[p].kids[i], w[p].kids, Without(w', branch);
    assert ListOk(w, p);
    forall k | k in list ensures k in w && w[k].parent == p { ChildsParent(w, p, k); }
    SplicedListOk(w, w', p, i, i + 1, mid);
    forall n | n in rest ensures ListOk(rest, n) && rest[n].parent != n {
      NotOwnParent(w, w', p, i, mid, branch, n);
      if n != p { OtherListOk(w, w', p, i, i + 1, mid, n); }
      forall k | k in w'[n].kids ensures k in rest {
        StaysIn(w, w', p, i, mid, branch, n, k);
      }
      RestrictedList(w', rest, n);
    }
    forall n | n in rest && rest[n].parent != null ensures rest[n].parent in rest && n in rest[rest[n].parent].kids {
      RestParent(w, w', p, i, mid, branch, n);
    }
  }

  /** The parent of any node but the replaced child and the new node is as before. */
  lemma ParentKeptOne(w: World, w': World, p: Node, i: nat, mid: Option<Node>, n: Node)
    requires p in w && i < |w[p].kids| && Spliced(w, w', p, i, i + 1, mid)
    requires n in w && n != w[p].kids[i] && (mid.Some? ==> n != mid.value)
    ensures w'[n].parent == w[n].parent
  {
    assert w[p].kids[i..i + 1] == [w[p].kids[i]];
    ParentKept(w, w', p, i, i + 1, mid, n);
  }

  /** What happens to the parents of the nodes that stay. */
  lemma NewParent(w: World, w': World, p: Node, i: nat, mid: Option<Node>, branch: set<Node>, n: Node)
    requires p in w && i < |w[p].kids| && Spliced(w, w', p, i, i + 1, mid)
    requires w[p].kids[i] in branch && n in w && n !in branch
    ensures w'[n].parent == if mid.Some? && n == mid.value then p else w[n].parent
  {
    if mid.None? || n != mid.value {
      ParentKeptOne(w, w', p, i, mid, n);
    }
  }

  lemma NotOwnParent(w: World, w': World, p: Node, i: nat, mid: Option<Node>, branch: set<Node>, n: Node)
    requires Valid(w) && p in w && i < |w[p].kids| && Spliced(w, w', p, i, i + 1, mid)
    requires mid.Some? ==> mid.value != p
    requires Branch(w, w[p].kids[i], branch) && n in w && n !in branch
    ensures w'[n].parent != n
  {
    NewParent(w, w', p, i, mid, branch, n);
  }

  lemma RestrictedList(w: World, rest: World, n: Node)
    requires n in w && n in rest && ListOk(w, n) && (forall k :: k in w[n].kids ==> k in rest)
    requires forall k :: k in rest ==> k in w && rest[k] == w[k]
    ensures ListOk(rest, n)
  {
    forall m | 0 <= m < |rest[n].kids| ensures Linked(rest, n, rest[n].kids, m) {
      assert Linked(w, n, w[n].kids, m);
    }
  }

  /** A child of a node that stays does not belong to the branch. */
  lemma StaysIn(w: World, w': World, p: Node, i: nat, mid: Option<Node>, branch: set<Node>, n: Node, k: Node)
    requires Valid(w) && p in w && i < |w[p].kids| && Spliced(w, w', p, i, i + 1, mid)
    requires mid.Some? ==> w[mid.value].parent == null
    requires Branch(w, w[p].kids[i], branch) && n in w && n !in branch && k in w'[n].kids
    ensures k in w && k !in branch
  {
    var list := w[p].kids;
    assert ListOk(w, p) && ListOk(w, n);
    ChildsParent(w, p, list[i]);
    if n == p {
      SpliceMember(list, i, i + 1, mid, k);
      assert k != list[i];
      if mid.None? || k != mid.value { ChildsParent(w, p, k); }
    } else {
      ChildsParent(w, n, k);
    }
  }

  lemma RestParent(w: World, w': World, p: Node, i: nat, mid: Option<Node>, branch: set<Node>, n: Node)
    requires Valid(w) && p in w && i < |w[p].kids| && Spliced(w, w', p, i, i + 1, mid)
    requires mid.Some? ==> w[mid.value].parent == null
    requires Branch(w, w[p].kids[i], branch) && p !in branch && n in w && n !in branch && w'[n].parent != null
    ensures w'[n].parent in w && w'[n].parent !in branch && n in w'[w'[n].parent].kids
  {
    NewParent(w, w', p, i, mid, branch, n);
    SpliceMember(w[p].kids, i, i + 1, mid, n);
    if w'[n].parent == p && n in w[p].kids {
      StillThere(w[p].kids, i, n);
    }
  }

  lemma StillThere(list: seq<Node>, i: nat, n: Node)
    requires i < |list| && n in list && n != list[i]
    ensures n in list[..i] || n in list[i + 1..]
  {
    assert list == list[..i] + [list[i]] + list[i + 1..];
  }

  /** The place of a child in its parent's list. */
  ghost function PlaceOf(list: seq<Node>, k: Node): (i: nat)
    requires k in list
    ensures i < |list| && list[i] == k
  {
    var i :| 0 <= i < |list| && list[i] == k;
    i
  }

  /** The pointers after a node has been put in at place i. */
  ghost predicate Inserted(w: World, w': World, p: Node, i: nat, node: Node)
    requires p in w && i <= |w[p].kids|
  {
    var list := w[p].kids;
    var left, right := Nth(list, i - 1), Nth(list, i);
    && p in w && node in w && w'.Keys == w.Keys
    && Place(w'[node]) == (p, left, right) && SameList(w[node], w'[node])
    && w'[p].kids == Splice(list, i, i, Some(node))
    && w'[p].first == (if left == null then node else w[p].first)
    && w'[p].last == (if right == null then node else w[p].last)
    && Place(w'[p]) == Place(w[p])
    && (left != null ==> left in w && w'[left] == w[left].(next := node))
    && (right != null ==> right in w && w'[right] == w[right].(prev := node))
    && forall n :: n in w && n != p && n != node && n != left && n != right ==> w'[n] == w[n]
  }

  /** The pointers that putting a node between left and right leaves. */
  ghost function WithNode(w: World, p: Node, left: Node?, right: Node?, node: Node, list: seq<Node>): World
    requires p in w
  {
    map n | n in w ::
      if n == node then w[n].(parent := p, prev := left, next := right)
      else if n == p then
        w[n].(kids := list, first := if left == null then node else w[n].first,
              last := if right == null then node else w[n].last)
      else if n == left then w[n].(next := node)
      else if n == right then w[n].(prev := node)
      else w[n]
  }

  lemma WithNodeInserted(w: World, p: Node, i: nat, left: Node?, right: Node?, node: Node)
    requires p in w && i <= |w[p].kids| && ListOk(w, p) && p !in w[p].kids && node in w && node !in w[p].kids
             && node != p
    requires left == Nth(w[p].kids, i - 1) && right == Nth(w[p].kids, i)
    ensures Inserted(w, WithNode(w, p, left, right, node, Splice(w[p].kids, i, i, Some(node))), p, i, node)
  {
    if i > 0 { assert Linked(w, p, w[p].kids, i - 1); }
    if i < |w[p].kids| { assert Linked(w, p, w[p].kids, i); }
  }

  lemma InsertedSpliced(w: World, w': World, p: Node, i: nat, node: Node)
    requires p in w && i <= |w[p].kids| && ListOk(w, p) && p !in w[p].kids && node !in w[p].kids && node != p
    requires Inserted(w, w', p, i, node)
    ensures Spliced(w, w', p, i, i, Some(node))
  {
    var list, list' := w[p].kids, Splice(w[p].kids, i, i, Some(node));
    assert list' == list[..i] + [node] + list[i..];
  }

  lemma InsertedValid(w: World, w': World, p: Node, i: nat, node: Node)
    requires Valid(w) && p in w && i <= |w[p].kids| && Inserted(w, w', p, i, node)
    requires w[node].parent == null && node != p
    ensures Valid(w') && OtherListsKept(w, w', p)
  {
    Strangers(w, p, node);
    InsertedSpliced(w, w', p, i, node);
    SplicedValid(w, w', p, i, node);
  }

  /** The lists of all nodes but p are as before. */
  ghost predicate OtherListsKept(w: World, w': World, p: Node) {
    w'.Keys == w.Keys && forall n :: n in w && n != p ==> SameList(w[n], w'[n])
  }

  /** Neither p nor a node without a parent is a child of p. */
  lemma Strangers(w: World, p: Node, node: Node)
    requires Valid(w) && p in w && node in w && w[node].parent == null
    ensures ListOk(w, p) && p !in w[p].kids && node !in w[p].kids
  {
    assert ListOk(w, p);
    if node in w[p].kids { ChildsParent(w, p, node); }
    if p in w[p].kids { ChildsParent(w, p, p); }
  }

  /** The pointers after child i has been taken out and replaced by mid, if there is one. */
  ghost predicate Exchanged(w: World, w': World, p: Node, i: nat, mid: Option<Node>)
    requires p in w && i < |w[p].kids|
  {
    var list := w[p].kids;
    var left, right := Nth(list, i - 1), Nth(list, i + 1);
    var afterLeft := if mid.Some? then mid.value else right;
    var beforeRight := if mid.Some? then mid.value else left;
    && w'.Keys == w.Keys
    && (mid.Some? ==> mid.value in w && Place(w'[mid.value]) == (p, left, right)
                      && SameList(w[mid.value], w'[mid.value]))
    && w'[p].kids == Splice(list, i, i + 1, mid)
    && w'[p].first == (if left == null then afterLeft else w[p].first)
    && w'[p].last == (if right == null then beforeRight else w[p].last)
    && Place(w'[p]) == Place(w[p])
    && (left != null ==> left in w && w'[left] == w[left].(next := afterLeft))
    && (right != null ==> right in w && w'[right] == w[right].(prev := beforeRight))
    && forall n :: n in w && n != p && (mid.Some? ==> n != mid.value) && n != left && n != right ==> w'[n] == w[n]
  }

  /** The pointers that joining left and right leaves, or putting mid between them. */
  ghost function WithExchange(w: World, p: Node, left: Node?, right: Node?, mid: Option<Node>, list: seq<Node>): World
    requires p in w
  {
    var afterLeft := if mid.Some? then mid.value else right;
    var beforeRight := if mid.Some? then mid.value else left;
    map n | n in w ::
      if mid.Some? && n == mid.value then w[n].(parent := p, prev := left, next := right)
      else if n == p then
        w[n].(kids := list, first := if left == null then afterLeft else w[n].first,
              last := if right == null then beforeRight else w[n].last)
      else if n == left then w[n].(next := afterLeft)
      else if n == right then w[n].(prev := beforeRight)
      else w[n]
  }

  lemma WithExchangeExchanged(w: World, p: Node, i: nat, left: Node?, right: Node?, mid: Option<Node>)
    requires p in w && i < |w[p].kids| && ListOk(w, p) && p !in w[p].kids
    requires left == Nth(w[p].kids, i - 1) && right == Nth(w[p].kids, i + 1)
    requires mid.Some? ==> mid.value in w && mid.value !in w[p].kids && mid.value != p
    ensures Exchanged(w, WithExchange(w, p, left, right, mid, Splice(w[p].kids, i, i + 1, mid)), p, i, mid)
  {
    if i > 0 { assert Linked(w, p, w[p].kids, i - 1); }
    if i + 1 < |w[p].kids| { assert Linked(w, p, w[p].kids, i + 1); }
  }

  lemma ExchangedSpliced(w: World, w': World, p: Node, i: nat, mid: Option<Node>)
    requires p in w && i < |w[p].kids| && ListOk(w, p) && p !in w[p].kids
    requires mid.Some? ==> mid.value !in w[p].kids && mid.value != p
    requires Exchanged(w, w', p, i, mid)
    ensures Spliced(w, w', p, i, i + 1, mid)
  {
    var list, list' := w[p].kids, Splice(w[p].kids, i, i + 1, mid);
    assert list' == list[..i] + (if mid.Some? then [mid.value] else []) + list[i + 1..];
  }

  lemma ExchangedValid(w: World, w': World, p: Node, i: nat, mid: Option<Node>, branch: set<Node>)
    requires Valid(w) && p in w && i < |w[p].kids| && Exchanged(w, w', p, i, mid)
    requires mid.Some? ==> mid.value in w && w[mid.value].parent == null && mid.value != p
    requires Branch(w, w[p].kids[i], branch) && p !in branch
    ensures Valid(Without(w', branch)) && OtherListsKept(w, w', p)
  {
    assert ListOk(w, p);
    if p in w[p].kids { ChildsParent(w, p, p); }
    if mid.Some? { Strangers(w, p, mid.value); }
    ExchangedSpliced(w, w', p, i, mid);
    DeletedValid(w, w', p, i, mid, branch);
  }

  // ------------------------------------------------ no node below itself

  /** Every child ranks above its parent, so no node can be reached from itself. */
  ghost predicate Ranked(w: World, older rank: map<Node, int>) {
    w.Keys == rank.Keys && forall n :: n in w ==> BelowKids(w, rank, n)
  }

  ghost predicate BelowKids(w: World, rank: map<Node, int>, n: Node)
    requires n in w && n in rank
  {
    forall k :: k in w[n].kids ==> k in rank && rank[n] < rank[k]
  }

  function Lifted(rank: map<Node, int>, branch: set<Node>, lift: int): (lifted: map<Node, int>)
    ensures lifted.Keys == rank.Keys
    ensures forall n :: n in rank ==> lifted[n] == if n in branch then rank[n] + lift else rank[n]
  {
    map n | n in rank :: if n in branch then rank[n] + lift else rank[n]
  }

  /** Every child was a child before, except for the new one. */
  lemma OldOrNewChild(w: World, w': World, p: Node, i: nat, j: nat, node: Node, n: Node, k: Node)
    requires Valid(w) && p in w && i <= j <= |w[p].kids| && n in w
    requires OtherListsKept(w, w', p) && w'[p].kids == Splice(w[p].kids, i, j, Some(node))
    requires k in w'[n].kids
    ensures (n == p && k == node) || (k in w[n].kids && k in w && w[k].parent == n)
  {
    SpliceMember(w[p].kids, i, j, Some(node), k);
    if n != p || k != node {
      assert ListOk(w, n) && k in w[n].kids;
      ChildsParent(w, n, k);
    }
  }

  /** A branch is lifted as a whole. */
  lemma LiftedTogether(w: World, node: Node, branch: set<Node>, n: Node, k: Node)
    requires Branch(w, node, branch) && node in w && w[node].parent == null
    requires n in w && k in w && k in w[n].kids && w[k].parent == n
    ensures n in branch <==> k in branch
  {
  }

  /** Putting a node without a parent under a node that is not below it, in place of others or not, makes no cycle. */
  lemma JoinedRanked(w: World, w': World, p: Node, i: nat, j: nat, node: Node, branch: set<Node>, rank: map<Node, int>)
    returns (rank': map<Node, int>)
    requires Valid(w) && Ranked(w, rank) && p in w && i <= j <= |w[p].kids|
    requires node in w && w[node].parent == null && Branch(w, node, branch) && p !in branch
    requires OtherListsKept(w, w', p) && w'[p].kids == Splice(w[p].kids, i, j, Some(node))
    ensures Ranked(w', rank')
  {
    var lift := (if rank[p] > rank[node] then rank[p] - rank[node] else 0) + 1;
    rank' := Lifted(rank, branch, lift);
    forall n | n in w' ensures BelowKids(w', rank', n) {
      JoinedNode(w, w', p, i, j, node, branch, rank, lift, rank', n);
    }
  }

  lemma JoinedNode(w: World, w': World, p: Node, i: nat, j: nat, node: Node, branch: set<Node>, rank: map<Node, int>,
                   lift: int, rank': map<Node, int>, n: Node)
    requires Valid(w) && Ranked(w, rank) && p in w && i <= j <= |w[p].kids|
    requires node in w && w[node].parent == null && Branch(w, node, branch) && p !in branch
    requires OtherListsKept(w, w', p) && w'[p].kids == Splice(w[p].kids, i, j, Some(node))
    requires rank[p] < rank[node] + lift && rank' == Lifted(rank, branch, lift)
    requires n in w'
    ensures BelowKids(w', rank', n)
  {
    forall k | k in w'[n].kids ensures k in rank' && rank'[n] < rank'[k] {
      JoinedEdge(w, w', p, i, j, node, branch, rank, lift, rank', n, k);
    }
  }

  lemma JoinedEdge(w: World, w': World, p: Node, i: nat, j: nat, node: Node, branch: set<Node>, rank: map<Node, int>,
                   lift: int, rank': map<Node, int>, n: Node, k: Node)
    requires Valid(w) && Ranked(w, rank) && p in w && i <= j <= |w[p].kids|
    requires node in w && w[node].parent == null && Branch(w, node, branch) && p !in branch
    requires OtherListsKept(w, w', p) && w'[p].kids == Splice(w[p].kids, i, j, Some(node))
    requires rank[p] < rank[node] + lift && rank' == Lifted(rank, branch, lift)
    requires n in w && k in w'[n].kids
    ensures k in rank' && rank'[n] < rank'[k]
  {
    OldOrNewChild(w, w', p, i, j, node, n, k);
    LiftedEdge(w, p, node, branch, rank, lift, rank', n, k);
  }

  /** The new edge goes up, and every old one still does. */
  lemma LiftedEdge(w: World, p: Node, node: Node, branch: set<Node>, rank: map<Node, int>, lift: int,
                   rank': map<Node, int>, n: Node, k: Node)
    requires Ranked(w, rank) && p in w && n in w
    requires node in w && w[node].parent == null && Branch(w, node, branch) && p !in branch
    requires (n == p && k == node) || (k in w[n].kids && k in w && w[k].parent == n)
    requires rank[p] < rank[node] + lift && rank' == Lifted(rank, branch, lift)
    ensures k in rank' && rank'[n] < rank'[k]
  {
    assert BelowKids(w, rank, n);
    if n != p || k != node {
      LiftedTogether(w, node, branch, n, k);
    }
  }

  /** Nor does taking a node out. */
  lemma ExchangedRanked(w: World, w': World, p: Node, i: nat, rank: map<Node, int>)
    requires Ranked(w, rank) && p in w && i < |w[p].kids| && w'.Keys == w.Keys
    requires w'[p].kids == Splice(w[p].kids, i, i + 1, None) && OtherListsKept(w, w', p)
    ensures Ranked(w', rank)
  {
    forall n | n in w' ensures BelowKids(w', rank, n) {
      assert BelowKids(w, rank, n);
      forall k | k in w'[n].kids ensures k in w[n].kids {
        SpliceMember(w[p].kids, i, i + 1, None, k);
      }
    }
  }

  /** The lists make a forest. */
  ghost predicate Acyclic(w: World) {
    exists rank: map<Node, int> :: Ranked(w, rank)
  }

  /** A node of least rank. */
  lemma {:induction false} LeastRanked(nodes: set<Node>, rank: map<Node, int>) returns (least: Node)
    requires nodes != {} && nodes <= rank.Keys
    ensures least in nodes && forall n :: n in nodes ==> rank[least] <= rank[n]
  {
    least :| least in nodes;
    if nodes != {least} {
      var other := LeastRanked(nodes - {least}, rank);
      if rank[other] < rank[least] { least := other; }
    }
  }

  /** If p is below the node that becomes its child, there is a cycle: no rank can go up along it. */
  lemma CycleMade(w: World, w': World, p: Node, i: nat, node: Node, branch: set<Node>, rank: map<Node, int>)
    requires Valid(w) && p in w && i <= |w[p].kids| && node in w && Branch(w, node, branch) && p in branch
    requires OtherListsKept(w, w', p) && w'[p].kids == Splice(w[p].kids, i, i, Some(node))
    ensures !Ranked(w', rank)
  {
    if Ranked(w', rank) {
      var least := LeastRanked(branch, rank);
      var lower := LowerInBranch(w, w', p, i, node, branch, rank, least);
    }
  }

  /** Going up from any node of the branch stays in it, if the topmost one hangs below p. */
  lemma LowerInBranch(w: World, w': World, p: Node, i: nat, node: Node, branch: set<Node>, rank: map<Node, int>,
                      n: Node)
    returns (parent: Node)
    requires Valid(w) && p in w && i <= |w[p].kids| && node in w && Branch(w, node, branch) && p in branch
             && n in branch
    requires OtherListsKept(w, w', p) && w'[p].kids == Splice(w[p].kids, i, i, Some(node)) && Ranked(w', rank)
    ensures parent in branch && rank[parent] < rank[n]
  {
    parent := if n == node then p else w[n].parent;
    SpliceMember(w[p].kids, i, i, Some(node), n);
    assert n in w'[parent].kids;
    assert BelowKids(w', rank, parent);
  }

  /** An insertion into a forest leaves a forest exactly if the new parent is not below the new child. */
  lemma InsertedAcyclic(w: World, w': World, p: Node, i: nat, node: Node, branch: set<Node>)
    requires Valid(w) && p in w && i <= |w[p].kids| && node in w && w[node].parent == null && Branch(w, node, branch)
    requires OtherListsKept(w, w', p) && w'[p].kids == Splice(w[p].kids, i, i, Some(node))
    ensures Acyclic(w) ==> (Acyclic(w') <==> p !in branch)
  {
    if rank :| Ranked(w, rank) && p !in branch {
      var rank' := JoinedRanked(w, w', p, i, i, node, branch, rank);
    }
    if rank :| Ranked(w', rank) && p in branch {
      CycleMade(w, w', p, i, node, branch, rank);
    }
  }

  /** Taking nodes away with everything below them leaves a forest. */
  lemma RestRanked(w: World, rank: map<Node, int>, gone: set<Node>)
    requires Ranked(w, rank) && forall n, k :: n in w && n !in gone && k in w[n].kids ==> k in w && k !in gone
    ensures Acyclic(Without(w, gone))
  {
    var rest := Without(w, gone);
    var rank' := map n | n in rest :: rank[n];
    forall n | n in rest ensures BelowKids(rest, rank', n) { assert BelowKids(w, rank, n); }
    assert Ranked(rest, rank');
  }

  /** Replacing or taking out a child leaves a forest. */
  lemma ExchangedAcyclic(w: World, w': World, p: Node, i: nat, mid: Option<Node>, gone: set<Node>, branch: set<Node>)
    requires Valid(Without(w', gone))
    requires Valid(w) && p in w && i < |w[p].kids| && OtherListsKept(w, w', p)
             && w'[p].kids == Splice(w[p].kids, i, i + 1, mid)
    requires mid.Some? ==> mid.value in w && w[mid.value].parent == null && Branch(w, mid.value, branch) && p !in branch
    ensures Acyclic(w) ==> Acyclic(Without(w', gone))
  {
    if rank :| Ranked(w, rank) {
      var rank' := rank;
      if mid.Some? {
        rank' := JoinedRanked(w, w', p, i, i + 1, mid.value, branch, rank);
      } else {
        ExchangedRanked(w, w', p, i, rank);
      }
      forall n, k | n in w' && n !in gone && k in w'[n].kids ensures k in w' && k !in gone {
        assert ListOk(Without(w', gone), n) && k in Without(w', gone)[n].kids;
      }
      RestRanked(w', rank', gone);
    }
  }

  /** The world in which a node has no parent. */
  ghost function Detached(w: World, node: Node): World
    requires node in w
  {
    w[node := w[node].(parent := null)]
  }

  /** Whatever parent the node has had, it is put in as if it had none. */
  lemma InsertedDetached(was: World, w: World, w': World, p: Node, i: nat, node: Node)
    requires p in was && i <= |was[p].kids| && node !in was[p].kids && node != p && Inserted(was, w', p, i, node)
    requires w == Detached(was, node)
    ensures Inserted(w, w', p, i, node)
  {
  }

  lemma DetachedList(w: World, node: Node, p: Node)
    requires p in w && node in w && p != node && node !in w[p].kids && ListOk(Detached(w, node), p)
    ensures ListOk(w, p)
  {
    forall i | 0 <= i < |w[p].kids| ensures w[p].kids[i] in w && Linked(w, p, w[p].kids, i) {
      assert Linked(Detached(w, node), p, w[p].kids, i);
    }
  }

  /** What putting a node in does to the whole document; w is the one in which it has no parent. */
  lemma LinkedWhole(was: World, w: World, w': World, p: Node, i: nat, node: Node, branch: set<Node>)
    requires p in was && node in was && i <= |was[p].kids| && node != p && w == Detached(was, node) && Valid(w)
    requires node !in was[p].kids && Inserted(was, w', p, i, node) && Branch(w, node, branch)
    ensures Valid(w') && OtherListsKept(was, w', p)
    ensures Acyclic(w) ==> (Acyclic(w') <==> p !in branch)
  {
    InsertedDetached(was, w, w', p, i, node);
    InsertedValid(w, w', p, i, node);
    InsertedSplice(w, w', p, i, node);
    InsertedAcyclic(w, w', p, i, node, branch);
    KeptDetached(was, w, w', p, node);
  }

  lemma InsertedSplice(w: World, w': World, p: Node, i: nat, node: Node)
    requires p in w && i <= |w[p].kids| && Inserted(w, w', p, i, node)
    ensures p in w' && w'[p].kids == Splice(w[p].kids, i, i, Some(node))
  {
  }

  lemma KeptDetached(was: World, w: World, w': World, p: Node, node: Node)
    requires node in was && w == Detached(was, node) && OtherListsKept(w, w', p)
    ensures OtherListsKept(was, w', p)
  {
    forall n | n in was && n != p ensures SameList(was[n], w'[n]) { assert SameList(w[n], w'[n]); }
  }

  /** What taking a child out, and putting another in its place or not, does to the whole document. */
  lemma ExchangedWhole(w: World, w': World, p: Node, i: nat, mid: Option<Node>, gone: set<Node>, copied: set<Node>)
    requires Valid(w) && p in w && i < |w[p].kids| && Exchanged(w, w', p, i, mid)
    requires mid.Some? ==>
               mid.value in w && w[mid.value].parent == null && mid.value != p
               && Branch(w, mid.value, copied)
    requires Branch(w, w[p].kids[i], gone) && p !in gone
    ensures Valid(Without(w', gone)) && OtherListsKept(w, w', p)
    ensures Acyclic(w) && (mid.Some? ==> p !in copied) ==> Acyclic(Without(w', gone))
  {
    ExchangedValid(w, w', p, i, mid, gone);
    if mid.Some? ==> p !in copied {
      ExchangedAcyclic(w, w', p, i, mid, gone, copied);
    }
  }

  /** The neighbours of child i, as its own pointers name them. */
  lemma Neighbours(w: World, p: Node, i: nat, k: Node)
    requires p in w && ListOk(w, p) && i < |w[p].kids| && w[p].kids[i] == k
    ensures k in w && w[k].prev == Nth(w[p].kids, i - 1) && w[k].next == Nth(w[p].kids, i + 1)
    ensures w[k].prev != null ==> w[k].prev in w && w[k].prev in w[p].kids && w[k].prev != k
    ensures w[k].next != null ==> w[k].next in w && w[k].next in w[p].kids && w[k].next != k
    ensures w[k].prev != null && w[k].next != null ==> w[k].prev != w[k].next
  {
    assert Linked(w, p, w[p].kids, i);
  }

  /** What LinkEndChild leaves of all nodes. */
  ghost function WithLast(w: World, p: Node, node: Node): World
    requires p in w
  {
    WithNode(w, p, w[p].last, null, node, w[p].kids + [node])
  }

  /** LinkEndChild on the whole document; w is the one in which the node has no parent. */
  lemma LinkedLast(was: World, w: World, p: Node, node: Node, branch: set<Node>)
    requires p in was && node in was && node != p && w == Detached(was, node) && Valid(w) && Branch(w, node, branch)
    ensures was[p].last != null ==> was[p].last in was.Keys - {p, node}
    ensures var w' := WithLast(was, p, node);
            Valid(w') && OtherListsKept(was, w', p) && (Acyclic(w) ==> (Acyclic(w') <==> p !in branch))
  {
    var list := was[p].kids;
    Strangers(w, p, node);
    DetachedList(was, node, p);
    assert Splice(list, |list|, |list|, Some(node)) == list + [node];
    WithNodeInserted(was, p, |list|, was[p].last, null, node);
    LinkedWhole(was, w, WithLast(was, p, node), p, |list|, node, branch);
  }

  /**
   * InsertBeforeChild and InsertAfterChild on the whole document: the node goes in at place i,
   * between left and right.
   */
  lemma InsertedAt(w: World, p: Node, i: nat, left: Node?, right: Node?, node: Node, branch: set<Node>)
    requires Valid(w) && p in w && i <= |w[p].kids| && left == Nth(w[p].kids, i - 1) && right == Nth(w[p].kids, i)
    requires node in w && w[node].parent == null && node != p && Branch(w, node, branch)
    ensures left != null ==> left in w.Keys - {p, node}
    ensures right != null ==> right in w.Keys - {p, node} && right != left
    ensures var w' := WithNode(w, p, left, right, node, Splice(w[p].kids, i, i, Some(node)));
            Valid(w') && OtherListsKept(w, w', p) && (Acyclic(w) ==> (Acyclic(w') <==> p !in branch))
  {
    Strangers(w, p, node);
    WithNodeInserted(w, p, i, left, right, node);
    var w' := WithNode(w, p, left, right, node, Splice(w[p].kids, i, i, Some(node)));
    InsertedValid(w, w', p, i, node);
    InsertedAcyclic(w, w', p, i, node, branch);
  }

  /** ReplaceChild and RemoveChild on the whole document. */
  lemma ExchangedAt(w: World, p: Node, i: nat, k: Node, mid: Option<Node>, gone: set<Node>, copied: set<Node>)
    requires Valid(w) && p in w && i < |w[p].kids| && w[p].kids[i] == k && Branch(w, k, gone) && p !in gone
    requires mid.Some? ==>
               mid.value in w && w[mid.value].parent == null && mid.value != p
               && Branch(w, mid.value, copied)
    ensures k in w && k != p && (mid.Some? ==> k != mid.value)
    ensures w[k].prev != null ==> w[k].prev in w.Keys - {p, k} && (mid.Some? ==> w[k].prev != mid.value)
    ensures w[k].next != null ==>
              w[k].next in w.Keys - {p, k} && w[k].next != w[k].prev && (mid.Some? ==> w[k].next != mid.value)
    ensures var w' := WithExchange(w, p, w[k].prev, w[k].next, mid, Splice(w[p].kids, i, i + 1, mid));
            && Valid(Without(w', gone)) && OtherListsKept(w, w', p)
            && (Acyclic(w) && (mid.Some? ==> p !in copied) ==> Acyclic(Without(w', gone)))
  {
    assert ListOk(w, p);
    if p in w[p].kids { ChildsParent(w, p, p); }
    if mid.Some? { Strangers(w, p, mid.value); }
    Neighbours(w, p, i, k);
    WithExchangeExchanged(w, p, i, w[k].prev, w[k].next, mid);
    var w' := WithExchange(w, p, w[k].prev, w[k].next, mid, Splice(w[p].kids, i, i + 1, mid));
    ExchangedWhole(w, w', p, i, mid, gone, copied);
  }

  class Node {
    var parent: Node?
    var firstChild: Node?
    var lastChild: Node?
    var prev: Node?
    var next: Node?
    /** The children, in order. */
    ghost var kids: seq<Node>

    ghost function View(): Links
      reads this
    {
      Links(parent, firstChild, lastChild, prev, next, kids)
    }

    constructor ()
      ensures View() == Links(null, null, null, null, null, [])
    {
      parent, firstChild, lastChild, prev, next, kids := null, null, null, null, null, [];
    }

    /** The pointer assignments of LinkEndChild. */
    method LinkLast(node: Node, ghost all: set<Node>)
      requires this in all && node in all && node != this
      requires lastChild != null ==> lastChild in all - {this, node}
      modifies all
      ensures Snapshot(all) == WithNode(old(Snapshot(all)), this, old(lastChild), null, node, old(kids) + [node])
    {
      node.parent := this;
      node.prev := lastChild;
      node.next := null;
      if lastChild != null {
        lastChild.next := node;
      } else {
        firstChild := node;
      }
      lastChild := node;
      kids := kids + [node];
    }

    /**
     * LinkEndChild: the node becomes the last child. A document can be no one's child. The node
     * has no parent yet, or already points to this one, as the parser has it; apart from that
     * pointer, all lists are in order. The branch is what is below the node.
     */
    method LinkEndChild(node: Node, isDocument: bool, ghost all: set<Node>, ghost branch: set<Node>)
      returns (linked: Node?)
      requires this in all && node in all && node != this && (node.parent == null || node.parent == this)
      requires Valid(Detached(Snapshot(all), node)) && Branch(Detached(Snapshot(all), node), node, branch)
      modifies all
      ensures linked == if isDocument then null else node
      ensures isDocument ==> Snapshot(all) == old(Snapshot(all))
      ensures !isDocument ==> Valid(Snapshot(all)) && kids == old(kids) + [node]
      ensures !isDocument ==> OtherListsKept(old(Snapshot(all)), Snapshot(all), this)
      ensures !isDocument && old(Acyclic(Detached(Snapshot(all), node))) ==>
                (Acyclic(Snapshot(all)) <==> this !in branch)
    {
      if isDocument {
        return null;
      }
      LinkedLast(Snapshot(all), Detached(Snapshot(all), node), this, node, branch);
      LinkLast(node, all);
      return node;
    }

    /** The pointer assignments of InsertBeforeChild. */
    method LinkBefore(beforeThis: Node, node: Node, ghost list: seq<Node>, ghost all: set<Node>)
      requires this in all && node in all - {this} && beforeThis in all - {this, node}
      requires beforeThis.prev != null ==> beforeThis.prev in all - {this, node, beforeThis}
      modifies all
      ensures Snapshot(all) == WithNode(old(Snapshot(all)), this, old(beforeThis.prev), beforeThis, node, list)
    {
      node.parent := this;
      node.next := beforeThis;
      node.prev := beforeThis.prev;
      if beforeThis.prev != null {
        beforeThis.prev.next := node;
      } else {
        firstChild := node;
      }
      beforeThis.prev := node;
      kids := list;
    }

    /** InsertBeforeChild: the clone, if there is one, goes right before the given child. */
    method InsertBeforeChild(beforeThis: Node?, isDocument: bool, clone: Node?, ghost all: set<Node>,
                            ghost branch: set<Node>) returns (node: Node?)
      requires this in all && Valid(Snapshot(all)) && (beforeThis != null ==> beforeThis in all)
      requires clone != null ==> clone in all && clone.parent == null && clone != this
      requires clone != null ==> Branch(Snapshot(all), clone, branch)
      modifies all
      ensures node == if beforeThis == null || old(beforeThis.parent) != this || isDocument then null else clone
      ensures node == null ==> Snapshot(all) == old(Snapshot(all))
      ensures node != null ==> Valid(Snapshot(all)) && OtherListsKept(old(Snapshot(all)), Snapshot(all), this)
      ensures node != null ==> exists i :: 0 <= i < |old(kids)| && old(kids)[i] == beforeThis
                                           && kids == Splice(old(kids), i, i, Some(node))
      ensures node != null && old(Acyclic(Snapshot(all))) ==> (Acyclic(Snapshot(all)) <==> this !in branch)
    {
      if beforeThis == null || beforeThis.parent != this {
        return null;
      }
      if isDocument || clone == null {
        return null;
      }
      node := clone;
      ghost var before := Snapshot(all);
      assert before[beforeThis].parent == this && beforeThis in kids;
      ghost var i := PlaceOf(kids, beforeThis);
      Neighbours(before, this, i, beforeThis);
      InsertedAt(before, this, i, beforeThis.prev, beforeThis, node, branch);
      LinkBefore(beforeThis, node, Splice(kids, i, i, Some(node)), all);
    }

    /** The pointer assignments of InsertAfterChild. */
    method LinkAfter(afterThis: Node, node: Node, ghost list: seq<Node>, ghost all: set<Node>)
      requires this in all && node in all - {this} && afterThis in all - {this, node}
      requires afterThis.next != null ==> afterThis.next in all - {this, node, afterThis}
      modifies all
      ensures Snapshot(all) == WithNode(old(Snapshot(all)), this, afterThis, old(afterThis.next), node, list)
    {
      node.parent := this;
      node.prev := afterThis;
      node.next := afterThis.next;
      if afterThis.next != null {
        afterThis.next.prev := node;
      } else {
        lastChild := node;
      }
      afterThis.next := node;
      kids := list;
    }

    /** InsertAfterChild: the clone, if there is one, goes right after the given child. */
    method InsertAfterChild(afterThis: Node?, isDocument: bool, clone: Node?, ghost all: set<Node>,
                           ghost branch: set<Node>) returns (node: Node?)
      requires this in all && Valid(Snapshot(all)) && (afterThis != null ==> afterThis in all)
      requires clone != null ==> clone in all && clone.parent == null && clone != this
      requires clone != null ==> Branch(Snapshot(all), clone, branch)
      modifies all
      ensures node == if afterThis == null || old(afterThis.parent) != this || isDocument then null else clone
      ensures node == null ==> Snapshot(all) == old(Snapshot(all))
      ensures node != null ==> Valid(Snapshot(all)) && OtherListsKept(old(Snapshot(all)), Snapshot(all), this)
      ensures node != null ==> exists i :: 0 <= i < |old(kids)| && old(kids)[i] == afterThis
                                           && kids == Splice(old(kids), i + 1, i + 1, Some(node))
      ensures node != null && old(Acyclic(Snapshot(all))) ==> (Acyclic(Snapshot(all)) <==> this !in branch)
    {
      if afterThis == null || afterThis.parent != this {
        return null;
      }
      if isDocument || clone == null {
        return null;
      }
      node := clone;
      ghost var before := Snapshot(all);
      assert before[afterThis].parent == this && afterThis in kids;
      ghost var i := PlaceOf(kids, afterThis);
      Neighbours(before, this, i, afterThis);
      InsertedAt(before, this, i + 1, afterThis, afterThis.next, node, branch);
      LinkAfter(afterThis, node, Splice(kids, i + 1, i + 1, Some(node)), all);
    }

    /** The pointer assignments of ReplaceChild. */
    method PointInstead(replaceThis: Node, node: Node)
      requires node != this && replaceThis != this && replaceThis != node
      requires replaceThis.prev != null ==> replaceThis.prev !in {this, node, replaceThis}
      requires replaceThis.next != null ==> replaceThis.next !in {this, node, replaceThis, replaceThis.prev}
      modifies this`firstChild, this`lastChild, node`parent, node`prev, node`next, {replaceThis.prev, replaceThis.next}
      ensures node.parent == this && node.prev == replaceThis.prev && node.next == replaceThis.next
      ensures lastChild == if node.next != null then old(lastChild) else node
      ensures firstChild == if node.prev != null then old(firstChild) else node
      ensures node.next != null ==> node.next.View() == old(replaceThis.next.View()).(prev := node)
      ensures node.prev != null ==> node.prev.View() == old(replaceThis.prev.View()).(next := node)
    {
      node.next := replaceThis.next;
      node.prev := replaceThis.prev;
      if replaceThis.next != null {
        replaceThis.next.prev := node;
      } else {
        lastChild := node;
      }
      if replaceThis.prev != null {
        replaceThis.prev.next := node;
      } else {
        firstChild := node;
      }
      node.parent := this;
    }

    /** What they leave of all nodes. */
    method LinkInstead(replaceThis: Node, node: Node, ghost list: seq<Node>, ghost all: set<Node>, ghost after: World)
      requires this in all && node in all - {this} && replaceThis in all - {this, node}
      requires replaceThis.prev != null ==> replaceThis.prev in all - {this, node, replaceThis}
      requires replaceThis.next != null ==> replaceThis.next in all - {this, node, replaceThis, replaceThis.prev}
      requires after == WithExchange(Snapshot(all), this, replaceThis.prev, replaceThis.next, Some(node), list)
      modifies all
      ensures Snapshot(all) == after && kids == list
    {
      PointInstead(replaceThis, node);
      kids := list;
    }

    /** ReplaceChild: the clone takes the place of the child, which is deleted with everything below it. */
    method ReplaceChild(replaceThis: Node?, isDocument: bool, clone: Node?, ghost all: set<Node>,
                        ghost branch: set<Node>, ghost copied: set<Node>)
      returns (node: Node?)
      requires this in all && Valid(Snapshot(all)) && (replaceThis != null ==> replaceThis in all)
      requires clone != null ==> clone in all && clone.parent == null && clone != this
      requires clone != null ==> Branch(Snapshot(all), clone, copied)
      requires replaceThis != null && replaceThis.parent == this ==>
                 Branch(Snapshot(all), replaceThis, branch) && this !in branch
      modifies all
      ensures node == if replaceThis == null || old(replaceThis.parent) != this || isDocument then null else clone
      ensures node == null ==> Snapshot(all) == old(Snapshot(all))
      ensures node != null ==>
                Valid(Without(Snapshot(all), branch))
                && OtherListsKept(old(Snapshot(all)), Snapshot(all), this)
      ensures node != null ==> exists i :: 0 <= i < |old(kids)| && old(kids)[i] == replaceThis
                                           && kids == Splice(old(kids), i, i + 1, Some(node))
      ensures node != null && old(Acyclic(Snapshot(all))) && this !in copied ==> Acyclic(Without(Snapshot(all), branch))
    {
      if replaceThis == null {
        return null;
      }
      if replaceThis.parent != this {
        return null;
      }
      if isDocument || clone == null {
        return null;
      }
      node := clone;
      ghost var before := Snapshot(all);
      assert before[replaceThis].parent == this && replaceThis in kids;
      ghost var i := PlaceOf(kids, replaceThis);
      ReplaceAt(i, replaceThis, node, all, branch, copied);
    }

    method ReplaceAt(ghost i: nat, replaceThis: Node, node: Node, ghost all: set<Node>, ghost branch: set<Node>,
                     ghost copied: set<Node>)
      requires this in all && node in all && Valid(Snapshot(all)) && node.parent == null && node != this
      requires i < |kids| && kids[i] == replaceThis && this !in branch
      requires Branch(Snapshot(all), node, copied) && Branch(Snapshot(all), replaceThis, branch)
      modifies all
      ensures Valid(Without(Snapshot(all), branch)) && OtherListsKept(old(Snapshot(all)), Snapshot(all), this)
      ensures kids == Splice(old(kids), i, i + 1, Some(node))
      ensures old(Acyclic(Snapshot(all))) && this !in copied ==> Acyclic(Without(Snapshot(all), branch))
    {
      ghost var before, list := Snapshot(all), Splice(kids, i, i + 1, Some(node));
      ghost var after := WithExchange(before, this, replaceThis.prev, replaceThis.next, Some(node), list);
      ExchangedAt(before, this, i, replaceThis, Some(node), branch, copied);
      LinkInstead(replaceThis, node, list, all, after);
    }

    /** The pointer assignments of RemoveChild. */
    method PointPast(removeThis: Node)
      requires removeThis != this
      requires removeThis.prev != null ==> removeThis.prev !in {this, removeThis}
      requires removeThis.next != null ==> removeThis.next !in {this, removeThis, removeThis.prev}
      modifies this`firstChild, this`lastChild, {removeThis.prev, removeThis.next}
      ensures var left, right := removeThis.prev, removeThis.next;
              && lastChild == (if right != null then old(lastChild) else left)
              && firstChild == (if left != null then old(firstChild) else right)
              && (right != null ==> right.View() == old(removeThis.next.View()).(prev := left))
              && (left != null ==> left.View() == old(removeThis.prev.View()).(next := right))
    {
      if removeThis.next != null {
        removeThis.next.prev := removeThis.prev;
      } else {
        lastChild := removeThis.prev;
      }
      if removeThis.prev != null {
        removeThis.prev.next := removeThis.next;
      } else {
        firstChild := removeThis.next;
      }
    }

    /** What they leave of all nodes. */
    method Unlink(removeThis: Node, ghost list: seq<Node>, ghost all: set<Node>)
      requires this in all && removeThis in all - {this}
      requires removeThis.prev != null ==> removeThis.prev in all - {this, removeThis}
      requires removeThis.next != null ==> removeThis.next in all - {this, removeThis, removeThis.prev}
      modifies all
      ensures Snapshot(all)
              == WithExchange(old(Snapshot(all)), this, old(removeThis.prev), old(removeThis.next), None, list)
    {
      PointPast(removeThis);
      kids := list;
    }

    /** RemoveChild: the child is taken out of the list and deleted with everything below it. */
    method RemoveChild(removeThis: Node?, ghost all: set<Node>, ghost branch: set<Node>) returns (removed: bool)
      requires this in all && Valid(Snapshot(all)) && (removeThis != null ==> removeThis in all)
      requires removeThis != null && removeThis.parent == this ==>
                 Branch(Snapshot(all), removeThis, branch) && this !in branch
      modifies all
      ensures removed <==> removeThis != null && old(removeThis.parent) == this
      ensures !removed ==> Snapshot(all) == old(Snapshot(all))
      ensures removed ==>
                Valid(Without(Snapshot(all), branch))
                && OtherListsKept(old(Snapshot(all)), Snapshot(all), this)
      ensures removed ==> exists i :: 0 <= i < |old(kids)| && old(kids)[i] == removeThis
                                      && kids == Splice(old(kids), i, i + 1, None)
      ensures removed && old(Acyclic(Snapshot(all))) ==> Acyclic(Without(Snapshot(all), branch))
    {
      if removeThis == null {
        return false;
      }
      if removeThis.parent != this {
        return false;
      }
      ghost var before := Snapshot(all);
      assert before[removeThis].parent == this && removeThis in kids;
      ghost var i := PlaceOf(kids, removeThis);
      ExchangedAt(before, this, i, removeThis, None, branch, {});
      Unlink(removeThis, Splice(kids, i, i + 1, None), all);
      return true;
    }
  }

  ghost function Snapshot(all: set<Node>): World
    reads all
  {
    map n | n in all :: n.View()
  }
}
