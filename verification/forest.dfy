/**
  The configuration's rule forest: one root folder for the yes/no text
  rules, one for the list rules and one for the talk rules.  The three list
  primitives the settings window uses on a folder's children (`Remove`,
  `Insert`, `Add`) are defined here with their effect on the whole forest.
 */
module Forests {

  import opened Results
  import opened Seqs
  import opened Tree

  datatype Kind = TextKind | ListKind | TalkKind

  datatype Forest = Forest(text: Node, list: Node, talk: Node)

  function Roots(f: Forest): (r: seq<Node>)
    ensures |r| == 3
  {
    [f.text, f.list, f.talk]
  }

  function Root(f: Forest, k: Kind): Node
  {
    match k
    case TextKind => f.text
    case ListKind => f.list
    case TalkKind => f.talk
  }

  function AllIds(f: Forest): multiset<nat>
  {
    SeqIds(Roots(f))
  }

  /** The ids that hang below some root, i.e. all but the roots' own. */
  function Nested(f: Forest): multiset<nat>
  {
    SeqBelow(Roots(f))
  }

  function Lookup(f: Forest, q: nat): Option<Node>
  {
    FindIn(Roots(f), q)
  }

  function ViewAt(f: Forest, q: nat): Option<View>
  {
    ViewIn(Roots(f), q)
  }

  /**
    The parent of a node: the folder, reachable from one of the three roots,
    whose children contain it.  The lookup the settings window calls is not
    part of this model; this definition is the meaning assumed for it.
   */
  function Parent(f: Forest, d: nat): Option<Node>
  {
    ParentIn(Roots(f), d)
  }

  /** The ids of the tree rooted at `d`, or none when there is no such node. */
  function Subtree(f: Forest, d: nat): multiset<nat>
  {
    match Lookup(f, d)
    case Some(n) => Ids(n)
    case None => multiset{}
  }

  /** The ids of a folder's children as shown; none for an entry or a missing node. */
  function KidsOf(f: Forest, q: nat): seq<nat>
  {
    match ViewAt(f, q)
    case Some(FolderView(_, ks)) => ks
    case _ => []
  }

  predicate IsFolder(f: Forest, q: nat)
  {
    Lookup(f, q).Some? && Lookup(f, q).value.Folder?
  }

  /** The roots are folders and no node occurs twice. */
  ghost predicate WellFormed(f: Forest)
  {
    && f.text.Folder? && f.list.Folder? && f.talk.Folder?
    && Unique(AllIds(f))
  }

  /** The forest with the children of folder `p` replaced by `cs`. */
  function Regraft(f: Forest, p: nat, cs: seq<Node>): (g: Forest)
    ensures Roots(g) == GraftIn(Roots(f), p, cs)
  {
    var r := GraftIn(Roots(f), p, cs);
    Forest(r[0], r[1], r[2])
  }

  /** `List.Remove` on the children of folder `p`: the first child with id `d` goes. */
  function RemoveChild(f: Forest, p: nat, d: nat): Forest
  {
    match Lookup(f, p)
    case Some(Folder(_, _, cs)) =>
      var i := IndexOf(IdsOf(cs), d);
      if i < 0 then f else Regraft(f, p, RemoveAt(cs, i))
    case _ => f
  }

  /**
    `List.Insert` on the children of folder `p`.  An index out of range makes
    the list throw before changing anything; here the forest is returned as
    it was.
   */
  function InsertChild(f: Forest, p: nat, k: int, x: Node): Forest
  {
    match Lookup(f, p)
    case Some(Folder(_, _, cs)) =>
      if 0 <= k <= |cs| then Regraft(f, p, Insert(cs, k, x)) else f
    case _ => f
  }

  /** `List.Add` on the children of folder `p`. */
  function AppendChild(f: Forest, p: nat, x: Node): Forest
  {
    match Lookup(f, p)
    case Some(Folder(_, _, cs)) => Regraft(f, p, cs + [x])
    case _ => f
  }

  /** An id no node of the forest uses, standing for a newly allocated node. */
  function FreshId(f: Forest): (r: nat)
    ensures r !in AllIds(f)
  {
    SeqBound(Roots(f))
  }

  // ---------------------------------------------------------------------
  // Multiset bookkeeping

  /** Taking `x` away from `b` leaves a unique multiset without `x`'s elements. */
  lemma Shrink(a: multiset<nat>, x: multiset<nat>, b: multiset<nat>)
    requires a + x == b && Unique(b)
    ensures Unique(a)
    ensures forall q :: q in x ==> q !in a
  {
    forall q ensures a[q] <= 1 && (q in x ==> q !in a) {
      assert (a + x)[q] == b[q];
    }
  }

  lemma CancelRemoved(a: multiset<nat>, f: multiset<nat>, s: multiset<nat>, s2: multiset<nat>, x: multiset<nat>)
    requires a + s == f + s2 && s2 + x == s
    ensures a + x == f
  {
    forall q ensures (a + x)[q] == f[q] {
      assert (a + s)[q] == (f + s2)[q];
      assert (s2 + x)[q] == s[q];
    }
  }

  lemma CancelInserted(a: multiset<nat>, f: multiset<nat>, s: multiset<nat>, s2: multiset<nat>, x: multiset<nat>)
    requires a + s == f + s2 && s2 == s + x
    ensures a == f + x
  {
    forall q ensures a[q] == (f + x)[q] {
      assert (a + s)[q] == (f + s2)[q];
    }
  }

  // ---------------------------------------------------------------------
  // Roots and lookup

  /** Each root is found under its own id, and has no parent. */
  lemma RootFound(f: Forest, k: Kind)
    requires WellFormed(f)
    ensures Lookup(f, Root(f, k).id) == Some(Root(f, k))
    ensures Parent(f, Root(f, k).id).None?
    ensures Root(f, k).id !in Nested(f)
  {
    var i := match k case TextKind => 0 case ListKind => 1 case TalkKind => 2;
    assert Roots(f)[i] == Root(f, k);
    FindChild(Roots(f), i);
    IdsSplit(Roots(f));
    assert multiset(IdsOf(Roots(f)))[Root(f, k).id] >= 1;
    assert AllIds(f)[Root(f, k).id] == multiset(IdsOf(Roots(f)))[Root(f, k).id] + Nested(f)[Root(f, k).id];
    ParentExists(Roots(f), Root(f, k).id);
  }

  /** A node of a well-formed forest occurs exactly once. */
  lemma Once(f: Forest, q: nat)
    requires WellFormed(f) && Lookup(f, q).Some?
    ensures AllIds(f)[q] == 1
    ensures Lookup(f, q).value.id == q && Ids(Lookup(f, q).value) <= AllIds(f)
  {
    FindSound(Roots(f), q);
  }

  /** The parent is itself a node of the forest, found under its own id. */
  lemma ParentFound(f: Forest, d: nat)
    requires WellFormed(f) && Parent(f, d).Some?
    ensures Lookup(f, Parent(f, d).value.id) == Parent(f, d)
    ensures d in IdsOf(Parent(f, d).value.children)
  {
    var p := Parent(f, d).value;
    ParentSound(Roots(f), d);
    assert p.id in Ids(p);
  }

  // ---------------------------------------------------------------------
  // The list primitives

  /**
    Removing the child `d` of folder `p` takes exactly its tree out of the
    forest, drops it from `p`'s children and leaves every other node as it
    was; if `d` is not a child of `p` nothing changes.
   */
  lemma RemoveChildSpec(f: Forest, p: nat, d: nat)
    requires WellFormed(f) && IsFolder(f, p)
    ensures var cs := Lookup(f, p).value.children;
            IndexOf(IdsOf(cs), d) < 0 ==> RemoveChild(f, p, d) == f
    ensures var P := Lookup(f, p).value;
            var i := IndexOf(IdsOf(P.children), d);
            var g := RemoveChild(f, p, d);
            0 <= i ==>
              && WellFormed(g)
              && AllIds(g) + Ids(P.children[i]) == AllIds(f)
              && ViewAt(g, p) == Some(FolderView(P.name, RemoveAt(IdsOf(P.children), i)))
              && (forall q :: q != p && q !in Ids(P.children[i]) ==> ViewAt(g, q) == ViewAt(f, q))
  {
    var P := Lookup(f, p).value;
    var cs := P.children;
    var i := IndexOf(IdsOf(cs), d);
    if 0 <= i {
      var cs' := RemoveAt(cs, i);
      var g := RemoveChild(f, p, d);
      assert g == Regraft(f, p, cs');
      Once(f, p);
      GraftIds(Roots(f), p, cs');
      SeqIdsRemoveAt(cs, i);
      CancelRemoved(AllIds(g), AllIds(f), SeqIds(cs), SeqIds(cs'), Ids(cs[i]));
      Shrink(AllIds(g), Ids(cs[i]), AllIds(f));
      assert Roots(g)[0].Folder? && Roots(g)[1].Folder? && Roots(g)[2].Folder?;
      GraftFindSelf(Roots(f), p, cs');
      IdsOfRemoveAt(cs, i);
      forall q | q != p && q !in Ids(cs[i])
        ensures ViewAt(g, q) == ViewAt(f, q)
      {
        FindRemoveAt(cs, i, q);
        assert (SeqIds(cs') + Ids(cs[i]))[q] == SeqIds(cs)[q];
        GraftFindOther(Roots(f), p, cs', q);
      }
    }
  }

  /**
    Inserting a tree `x` whose ids are new to the forest at position `k` of
    folder `p`'s children adds exactly its ids, shows it at that position,
    keeps it intact, and leaves every other node as it was.
   */
  lemma InsertChildSpec(f: Forest, p: nat, k: int, x: Node)
    requires WellFormed(f) && IsFolder(f, p)
    requires 0 <= k <= |Lookup(f, p).value.children|
    requires Unique(AllIds(f) + Ids(x))
    ensures var P := Lookup(f, p).value;
            var g := InsertChild(f, p, k, x);
            && WellFormed(g)
            && AllIds(g) == AllIds(f) + Ids(x)
            && ViewAt(g, p) == Some(FolderView(P.name, Insert(IdsOf(P.children), k, x.id)))
            && (forall q :: q != p && q !in Ids(x) ==> ViewAt(g, q) == ViewAt(f, q))
            && (forall q :: q in Ids(x) ==> ViewAt(g, q) == ViewOpt(Find(x, q)))
  {
    var P := Lookup(f, p).value;
    var cs := P.children;
    var cs' := Insert(cs, k, x);
    var g := InsertChild(f, p, k, x);
    assert g == Regraft(f, p, cs');
    Once(f, p);
    GraftIds(Roots(f), p, cs');
    SeqIdsInsert(cs, k, x);
    CancelInserted(AllIds(g), AllIds(f), SeqIds(cs), SeqIds(cs'), Ids(x));
    assert Roots(g)[0].Folder? && Roots(g)[1].Folder? && Roots(g)[2].Folder?;
    GraftFindSelf(Roots(f), p, cs');
    IdsOfInsert(cs, k, x);
    assert SeqIds(cs) <= AllIds(f) by {
      assert Ids(P) == multiset{p} + SeqIds(cs);
    }
    forall q | q != p && q !in Ids(x)
      ensures ViewAt(g, q) == ViewAt(f, q)
    {
      FindInsert(cs, k, x, q);
      GraftFindOther(Roots(f), p, cs', q);
    }
    forall q | q in Ids(x)
      ensures ViewAt(g, q) == ViewOpt(Find(x, q))
    {
      assert (AllIds(f) + Ids(x))[q] <= 1;
      FindInsert(cs, k, x, q);
      GraftFindNew(Roots(f), p, cs', q);
    }
  }

  /** `Add` is `Insert` at the end. */
  lemma AppendIsInsertChild(f: Forest, p: nat, x: Node)
    requires IsFolder(f, p)
    ensures AppendChild(f, p, x) == InsertChild(f, p, |Lookup(f, p).value.children|, x)
  {
    AppendIsInsert(Lookup(f, p).value.children, x);
  }

  // ---------------------------------------------------------------------
  // Children and parents

  /** A parent is found for exactly the nodes below the roots. */
  lemma HasParent(f: Forest, d: nat)
    ensures Parent(f, d).Some? <==> d in Nested(f)
  {
    ParentExists(Roots(f), d);
  }

  /** Every child of a folder of the forest is found under its own id. */
  lemma ChildFound(f: Forest, p: nat, i: nat)
    requires WellFormed(f) && IsFolder(f, p)
    requires i < |Lookup(f, p).value.children|
    ensures Lookup(f, Lookup(f, p).value.children[i].id) == Some(Lookup(f, p).value.children[i])
  {
    var P := Lookup(f, p).value;
    var cs := P.children;
    var c := cs[i].id;
    Once(f, p);
    IdsSplit(cs);
    assert IdsOf(cs)[i] == c;
    assert c in SeqIds(cs);
    assert Ids(P)[c] == (if p == c then 1 else 0) + SeqIds(cs)[c];
    assert AllIds(f)[c] == 1;
    FindNested(Roots(f), p, c);
    UniqueWithin(SeqIds(cs), AllIds(f));
    FindChild(cs, i);
  }

  /** The folder of the forest that has `d` among its children is its parent. */
  lemma OwnerIsParent(f: Forest, p: nat, d: nat)
    requires WellFormed(f) && IsFolder(f, p)
    requires d in IdsOf(Lookup(f, p).value.children)
    ensures Parent(f, d) == Lookup(f, p)
  {
    ParentIsOwner(Roots(f), p, d);
  }

  /**
    The tree below a node that is not a root: its parent, its position among
    the parent's children, and that child found under its id.
   */
  lemma Located(f: Forest, d: nat)
    requires WellFormed(f) && d in Nested(f)
    ensures Parent(f, d).Some?
    ensures var P := Parent(f, d).value;
            var i := IndexOf(IdsOf(P.children), d);
            && IsFolder(f, P.id) && Lookup(f, P.id) == Some(P)
            && 0 <= i < |P.children|
            && Lookup(f, d) == Some(P.children[i])
            && Subtree(f, d) == Ids(P.children[i])
  {
    HasParent(f, d);
    ParentFound(f, d);
    var P := Parent(f, d).value;
    var i := IndexOf(IdsOf(P.children), d);
    ChildFound(f, P.id, i);
  }

  /** A node's parent is not inside the node's own tree. */
  lemma ParentOutside(f: Forest, d: nat)
    requires WellFormed(f) && d in Nested(f)
    ensures Parent(f, d).Some? && Parent(f, d).value.id !in Subtree(f, d)
  {
    Located(f, d);
    var P := Parent(f, d).value;
    var i := IndexOf(IdsOf(P.children), d);
    Once(f, P.id);
    SeqIdsRemoveAt(P.children, i);
    assert Ids(P)[P.id] == 1 + SeqIds(P.children)[P.id];
    assert (SeqIds(RemoveAt(P.children, i)) + Ids(P.children[i]))[P.id] == SeqIds(P.children)[P.id];
  }

  /** The children a folder shows are nodes of the forest. */
  lemma KidsPresent(f: Forest, q: nat)
    ensures forall c :: c in KidsOf(f, q) ==> c in AllIds(f)
  {
    if Lookup(f, q).Some? && Lookup(f, q).value.Folder? {
      var n := Lookup(f, q).value;
      FindSound(Roots(f), q);
      IdsSplit(n.children);
      assert Ids(n) == multiset{n.id} + SeqIds(n.children);
    }
  }

  /** The children of a folder inside the tree of `d` are inside it too. */
  lemma InsideStaysInside(f: Forest, d: nat, q: nat)
    requires WellFormed(f) && Lookup(f, d).Some?
    ensures q in Subtree(f, d) ==> forall c :: c in KidsOf(f, q) ==> c in Subtree(f, d)
  {
    if q in Subtree(f, d) {
      var D := Lookup(f, d).value;
      Once(f, d);
      FindNested(Roots(f), d, q);
      FindSoundNode(D, q);
      var n := Find(D, q).value;
      if n.Folder? {
        IdsSplit(n.children);
        assert Ids(n) == multiset{n.id} + SeqIds(n.children);
      }
    }
  }

  /** A node is a child of no folder but its parent. */
  lemma SoleParent(f: Forest, q: nat, d: nat)
    requires WellFormed(f) && IsFolder(f, q)
    ensures d in KidsOf(f, q) ==> Parent(f, d) == Lookup(f, q)
  {
    if d in KidsOf(f, q) {
      OwnerIsParent(f, q, d);
    }
  }

  // ---------------------------------------------------------------------
  // Replacing a node in place

  /** `b` is `a` with only its own fields changed: same id, kind and children. */
  predicate SameShape(a: Node, b: Node)
  {
    && a.id == b.id
    && (|| (a.Entry? && b.Entry?)
        || (a.Folder? && b.Folder? && a.children == b.children))
  }

  /**
    The forest with the node `x` (which hangs below a root) replaced by `y`,
    as setting a field of the node object in place does.
   */
  function Replace(f: Forest, x: nat, y: Node): Forest
  {
    match Parent(f, x)
    case None => f
    case Some(P) =>
      var i := IndexOf(IdsOf(P.children), x);
      Regraft(f, P.id, P.children[i := y])
  }

  lemma ReplaceIsRemoveInsert<T>(s: seq<T>, i: nat, y: T)
    requires i < |s|
    ensures s[i := y] == Insert(RemoveAt(s, i), i, y)
  {
  }

  /** Replacing a child in place is removing it and inserting the new node where it was. */
  lemma ReplaceSteps(f: Forest, x: nat, y: Node)
    requires WellFormed(f) && x in Nested(f)
    ensures Parent(f, x).Some?
    ensures var P := Parent(f, x).value;
            var i := IndexOf(IdsOf(P.children), x);
            && Lookup(RemoveChild(f, P.id, x), P.id) == Some(P.(children := RemoveAt(P.children, i)))
            && Replace(f, x, y) == InsertChild(RemoveChild(f, P.id, x), P.id, i, y)
  {
    Located(f, x);
    var P := Parent(f, x).value;
    var p := P.id;
    var cs := P.children;
    var i := IndexOf(IdsOf(cs), x);
    var g1 := RemoveChild(f, p, x);
    Once(f, p);
    GraftFindSelf(Roots(f), p, RemoveAt(cs, i));
    var g2 := InsertChild(g1, p, i, y);
    GraftTwice(Roots(f), p, RemoveAt(cs, i), Insert(RemoveAt(cs, i), i, y));
    ReplaceIsRemoveInsert(cs, i, y);
    assert Roots(g2) == Roots(Replace(f, x, y));
  }

  /**
    Changing a node's own fields changes its view and nothing else: no node
    appears or disappears and every other node looks the same.
   */
  lemma ReplaceSpec(f: Forest, x: nat, y: Node)
    requires WellFormed(f) && x in Nested(f)
    requires Lookup(f, x).Some? && SameShape(Lookup(f, x).value, y)
    ensures WellFormed(Replace(f, x, y))
    ensures AllIds(Replace(f, x, y)) == AllIds(f)
    ensures ViewAt(Replace(f, x, y), x) == Some(ViewOf(y))
    ensures forall q :: q != x ==> ViewAt(Replace(f, x, y), q) == ViewAt(f, q)
  {
    Located(f, x);
    ReplaceSteps(f, x, y);
    var P := Parent(f, x).value;
    var p := P.id;
    var cs := P.children;
    var i := IndexOf(IdsOf(cs), x);
    var old0 := cs[i];
    var g1 := RemoveChild(f, p, x);
    var g := Replace(f, x, y);
    assert g == InsertChild(g1, p, i, y);
    RemoveChildSpec(f, p, x);
    assert Ids(y) == Ids(old0);
    assert AllIds(g1) + Ids(y) == AllIds(f);
    assert Lookup(g1, p) == Some(P.(children := RemoveAt(cs, i)));
    InsertChildSpec(g1, p, i, y);
    assert ViewAt(g, x) == Some(ViewOf(y)) by {
      assert x in Ids(y) && Find(y, x) == Some(y);
    }
    IdsOfRemoveAt(cs, i);
    InsertRemoved(IdsOf(cs), i);
    assert ViewAt(g, p) == ViewAt(f, p);
    forall q | q != x && q != p
      ensures ViewAt(g, q) == ViewAt(f, q)
    {
      SameShapeFinds(f, x, y, q);
    }
  }

  /** Below a replaced node of the same shape, every other node is found as before. */
  lemma SameShapeFinds(f: Forest, x: nat, y: Node, q: nat)
    requires WellFormed(f) && Lookup(f, x).Some? && SameShape(Lookup(f, x).value, y)
    requires q != x
    ensures q in Ids(y) ==> Find(y, q) == Lookup(f, q)
  {
    if q in Ids(y) {
      Once(f, x);
      FindNested(Roots(f), x, q);
    }
  }
}
