/**
  Drag and drop in the rule trees.  A node dropped on a folder becomes that
  folder's last child; a node dropped on an entry is put just before it, in
  the entry's folder.  The dragged node's parent is looked up first and the
  target's after, and a missing parent is an error raised before anything
  is moved.
 */
module DragDrop {

  import opened Results
  import opened Seqs
  import opened Tree
  import opened Forests
  import opened Editing

  datatype Error = ParentNotFound(id: nat)

  /** Dropping the node `d` on the node `t`. */
  function Relocate(f: Forest, d: nat, t: nat): Result<Forest, Error>
  {
    match Parent(f, d)
    case None => Failure(ParentNotFound(d))
    case Some(P) =>
      var D := P.children[IndexOf(IdsOf(P.children), d)];
      if IsFolder(f, t) then
        Success(AppendChild(RemoveChild(f, P.id, d), t, D))
      else
        match Parent(f, t)
        case None => Failure(ParentNotFound(t))
        case Some(Q) =>
          var j := IndexOf(IdsOf(Q.children), t);
          var k := if Q.id == P.id && IndexOf(IdsOf(Q.children), d) < j then j - 1 else j;
          Success(InsertChild(RemoveChild(f, P.id, d), Q.id, k, D))
  }

  /**
    A drop keeps every node in the forest unless the target lies in the
    dragged node's own tree; the one exception is an entry dropped on itself.
   */
  predicate SafeDrop(f: Forest, d: nat, t: nat)
  {
    t !in Subtree(f, d) || (t == d && !IsFolder(f, t))
  }

  /**
    A drop fails exactly when the dragged node has no parent, or when the
    target is not a folder and has no parent; the error names the node whose
    parent was missing, the dragged one being looked up first.
   */
  lemma RelocateFailure(f: Forest, d: nat, t: nat)
    ensures Relocate(f, d, t).Failure? <==> d !in Nested(f) || (!IsFolder(f, t) && t !in Nested(f))
    ensures d !in Nested(f) ==> Relocate(f, d, t) == Failure(ParentNotFound(d))
    ensures d in Nested(f) && !IsFolder(f, t) && t !in Nested(f) ==>
              Relocate(f, d, t) == Failure(ParentNotFound(t))
  {
    HasParent(f, d);
    HasParent(f, t);
  }

  /** The roots are never moved: dragging one fails. */
  lemma RootsStay(f: Forest, k: Kind, t: nat)
    requires WellFormed(f)
    ensures Relocate(f, Root(f, k).id, t) == Failure(ParentNotFound(Root(f, k).id))
  {
    RootFound(f, k);
    RelocateFailure(f, Root(f, k).id, t);
  }

  /** The first step of every successful drop is the removal that deleting does. */
  lemma RelocateSteps(f: Forest, d: nat, t: nat)
    requires WellFormed(f) && d in Nested(f)
    ensures Parent(f, d).Some? && Lookup(f, d).Some?
    ensures IsFolder(f, t) ==>
              Relocate(f, d, t) == Success(AppendChild(Delete(f, d), t, Lookup(f, d).value))
    ensures !IsFolder(f, t) && t in Nested(f) ==>
              && Parent(f, t).Some?
              && var P := Parent(f, d).value;
                 var Q := Parent(f, t).value;
                 var j := IndexOf(IdsOf(Q.children), t);
                 var k := if Q.id == P.id && IndexOf(IdsOf(P.children), d) < j then j - 1 else j;
                 Relocate(f, d, t) == Success(InsertChild(Delete(f, d), Q.id, k, Lookup(f, d).value))
  {
    Located(f, d);
    HasParent(f, t);
    var P := Parent(f, d).value;
    var D := Lookup(f, d).value;
    assert Delete(f, d) == RemoveChild(f, P.id, d);
    assert P.children[IndexOf(IdsOf(P.children), d)] == D;
    if !IsFolder(f, t) && t in Nested(f) {
      Located(f, t);
      var Q := Parent(f, t).value;
      assert Q.id == P.id ==> Q == P;
    }
  }

  /**
    Detaching `d` and attaching its tree at position `k` of a folder `q`
    outside that tree: nothing is lost or duplicated, `q` shows `d` at that
    position, `d`'s old parent shows it gone, and every other node -- the
    moved ones included -- looks as before.
   */
  lemma Move(f: Forest, d: nat, q: nat, k: int)
    requires WellFormed(f) && d in Nested(f) && Lookup(f, d).Some?
    requires IsFolder(f, q) && q !in Subtree(f, d)
    requires 0 <= k <= |KidsOf(Delete(f, d), q)|
    ensures Parent(f, d).Some?
    ensures var P := Parent(f, d).value;
            var g := InsertChild(Delete(f, d), q, k, Lookup(f, d).value);
            && WellFormed(g)
            && AllIds(g) == AllIds(f)
            && ViewAt(g, q) == Some(FolderView(Lookup(f, q).value.name, Insert(KidsOf(Delete(f, d), q), k, d)))
            && (q != P.id ==> ViewAt(g, P.id) == ViewAt(Delete(f, d), P.id))
            && (forall r :: r != q && r != P.id ==> ViewAt(g, r) == ViewAt(f, r))
  {
    DeleteSpec(f, d);
    Located(f, d);
    var P := Parent(f, d).value;
    var D := Lookup(f, d).value;
    var g1 := Delete(f, d);
    ParentOutside(f, d);
    Once(f, q);
    Once(f, d);
    assert (AllIds(g1) + Subtree(f, d))[q] == AllIds(f)[q];
    assert ViewAt(g1, q).Some? && ViewAt(g1, q).value.FolderView?;
    assert ViewAt(g1, q).value.name == Lookup(f, q).value.name;
    assert IsFolder(g1, q);
    InsertChildSpec(g1, q, k, D);
    var g := InsertChild(g1, q, k, D);
    forall r | r != q && r != P.id
      ensures ViewAt(g, r) == ViewAt(f, r)
    {
      if r in Ids(D) {
        FindNested(Roots(f), d, r);
      }
    }
  }

  /**
    Dropping on a folder outside the dragged tree: the dragged node leaves
    its old parent and becomes the folder's last child; the other children
    of both folders keep their order and nothing else changes.
   */
  lemma DropOnFolder(f: Forest, d: nat, t: nat)
    requires WellFormed(f) && d in Nested(f)
    requires IsFolder(f, t) && t !in Subtree(f, d)
    ensures Relocate(f, d, t).Success? && Parent(f, d).Some?
    ensures var P := Parent(f, d).value;
            var g := Relocate(f, d, t).value;
            && WellFormed(g)
            && AllIds(g) == AllIds(f)
            && ViewAt(g, t) == Some(FolderView(Lookup(f, t).value.name, Without(KidsOf(f, t), d) + [d]))
            && (t != P.id ==> ViewAt(g, P.id) == Some(FolderView(P.name, Without(KidsOf(f, P.id), d))))
            && (forall r :: r != t && r != P.id ==> ViewAt(g, r) == ViewAt(f, r))
  {
    RelocateSteps(f, d, t);
    DeleteSpec(f, d);
    Located(f, d);
    var P := Parent(f, d).value;
    var D := Lookup(f, d).value;
    var g1 := Delete(f, d);
    var ks := KidsOf(g1, t);
    if t == P.id {
      assert ks == Without(KidsOf(f, t), d);
    } else {
      Once(f, t);
      SoleParent(f, t, d);
      assert d !in KidsOf(f, t);
      assert ks == KidsOf(f, t);
    }
    Move(f, d, t, |ks|);
    AppendIsInsertChild(g1, t, D);
    AppendIsInsert(ks, d);
  }

  /** A drop on a sibling entry is a removal and a reinsertion in the same folder. */
  lemma SiblingSteps(f: Forest, d: nat, t: nat)
    requires WellFormed(f) && d in Nested(f) && t in Nested(f)
    requires !IsFolder(f, t) && Parent(f, t) == Parent(f, d)
    ensures Parent(f, d).Some? && Lookup(f, d).Some?
    ensures var P := Parent(f, d).value;
            var ks := IdsOf(P.children);
            var i := IndexOf(ks, d);
            var j := IndexOf(ks, t);
            && 0 <= i < |ks| && 0 <= j < |ks|
            && IsFolder(f, P.id) && Lookup(f, P.id) == Some(P)
            && Relocate(f, d, t) == Success(InsertChild(Delete(f, d), P.id, if i < j then j - 1 else j, Lookup(f, d).value))
  {
    RelocateSteps(f, d, t);
    Located(f, d);
    Located(f, t);
  }

  /**
    Reordering within one folder by dropping on a sibling entry: the
    folder's children are rearranged by `MoveBefore`, so the dragged node
    lands immediately before the target and the others keep their order
    (`MoveLandsBefore`); nothing else changes.
   */
  lemma DropBesideSibling(f: Forest, d: nat, t: nat)
    requires WellFormed(f) && d in Nested(f) && t in Nested(f)
    requires !IsFolder(f, t) && Parent(f, t) == Parent(f, d)
    ensures Relocate(f, d, t).Success? && Parent(f, d).Some?
    ensures var ks := IdsOf(Parent(f, d).value.children);
            0 <= IndexOf(ks, d) && 0 <= IndexOf(ks, t)
    ensures var P := Parent(f, d).value;
            var ks := IdsOf(P.children);
            var g := Relocate(f, d, t).value;
            && WellFormed(g)
            && AllIds(g) == AllIds(f)
            && ViewAt(g, P.id) == Some(FolderView(P.name, MoveBefore(ks, IndexOf(ks, d), IndexOf(ks, t))))
            && (forall r :: r != P.id ==> ViewAt(g, r) == ViewAt(f, r))
  {
    SiblingSteps(f, d, t);
    KidsAfterDelete(f, d);
    ParentOutside(f, d);
    var P := Parent(f, d).value;
    var ks := IdsOf(P.children);
    var i := IndexOf(ks, d);
    var j := IndexOf(ks, t);
    Move(f, d, P.id, if i < j then j - 1 else j);
  }

  /** After a deletion the parent shows its other children, in order. */
  lemma KidsAfterDelete(f: Forest, d: nat)
    requires WellFormed(f) && d in Nested(f)
    ensures Parent(f, d).Some?
    ensures var P := Parent(f, d).value;
            var ks := IdsOf(P.children);
            && 0 <= IndexOf(ks, d)
            && KidsOf(Delete(f, d), P.id) == RemoveAt(ks, IndexOf(ks, d))
            && ViewAt(Delete(f, d), P.id) == Some(FolderView(P.name, Without(ks, d)))
            && Lookup(f, P.id) == Some(P)
  {
    DeleteSpec(f, d);
    Located(f, d);
  }

  /** Dropping an entry on itself changes nothing. */
  lemma DropOnItself(f: Forest, d: nat)
    requires WellFormed(f) && d in Nested(f) && !IsFolder(f, d)
    ensures Relocate(f, d, d) == Success(f)
  {
    RelocateSteps(f, d, d);
    Located(f, d);
    DeleteUndone(f, d);
  }

  /**
    Dropping on an entry in another folder, outside the dragged tree: the
    dragged node leaves its old parent and is inserted at the target's
    index in the target's folder, so it lands just before the target.
   */
  lemma DropBesideOther(f: Forest, d: nat, t: nat)
    requires WellFormed(f) && d in Nested(f) && t in Nested(f)
    requires !IsFolder(f, t) && Parent(f, t) != Parent(f, d) && t !in Subtree(f, d)
    ensures Relocate(f, d, t).Success? && Parent(f, d).Some? && Parent(f, t).Some?
    ensures var P := Parent(f, d).value;
            var Q := Parent(f, t).value;
            var ks := IdsOf(Q.children);
            var j := IndexOf(ks, t);
            var g := Relocate(f, d, t).value;
            && WellFormed(g)
            && AllIds(g) == AllIds(f)
            && ViewAt(g, Q.id) == Some(FolderView(Q.name, Insert(ks, j, d)))
            && Insert(ks, j, d)[j + 1] == t
            && ViewAt(g, P.id) == Some(FolderView(P.name, Without(IdsOf(P.children), d)))
            && (forall r :: r != P.id && r != Q.id ==> ViewAt(g, r) == ViewAt(f, r))
  {
    RelocateSteps(f, d, t);
    KidsAfterDelete(f, d);
    Located(f, t);
    var P := Parent(f, d).value;
    var Q := Parent(f, t).value;
    var ks := IdsOf(Q.children);
    var j := IndexOf(ks, t);
    var g1 := Delete(f, d);
    assert Relocate(f, d, t) == Success(InsertChild(g1, Q.id, j, Lookup(f, d).value));
    OutsideParent(f, d, t);
    assert KidsOf(g1, Q.id) == ks;
    Move(f, d, Q.id, j);
  }

  /**
    The folder holding an entry outside the dragged tree, when it is not the
    dragged node's parent, is outside that tree too and loses nothing when
    the dragged node is deleted.
   */
  lemma OutsideParent(f: Forest, d: nat, t: nat)
    requires WellFormed(f) && d in Nested(f) && t in Nested(f)
    requires Parent(f, t) != Parent(f, d) && t !in Subtree(f, d)
    ensures Parent(f, d).Some? && Parent(f, t).Some?
    ensures var Q := Parent(f, t).value;
            && Q.id != Parent(f, d).value.id
            && Q.id !in Subtree(f, d)
            && ViewAt(Delete(f, d), Q.id) == ViewAt(f, Q.id)
  {
    DeleteSpec(f, d);
    Located(f, d);
    Located(f, t);
    var Q := Parent(f, t).value;
    InsideStaysInside(f, d, Q.id);
    assert t in KidsOf(f, Q.id);
  }

  /** A safe drop keeps every node of the forest. */
  lemma SafeDropConserves(f: Forest, d: nat, t: nat)
    requires WellFormed(f) && Relocate(f, d, t).Success? && SafeDrop(f, d, t)
    ensures WellFormed(Relocate(f, d, t).value)
    ensures AllIds(Relocate(f, d, t).value) == AllIds(f)
  {
    RelocateFailure(f, d, t);
    if IsFolder(f, t) {
      Located(f, d);
      DropOnFolder(f, d, t);
    } else if Parent(f, t) == Parent(f, d) {
      DropBesideSibling(f, d, t);
    } else {
      DropBesideOther(f, d, t);
    }
  }

  /**
    An unsafe drop -- a folder on itself, or anything on a node inside the
    dragged tree -- detaches the dragged tree and then attaches it to a node
    that is no longer in the forest, so the tree is lost: the result is the
    forest with that tree deleted.
   */
  lemma UnsafeDropLoses(f: Forest, d: nat, t: nat)
    requires WellFormed(f) && Relocate(f, d, t).Success? && !SafeDrop(f, d, t)
    ensures Relocate(f, d, t) == Success(Delete(f, d))
  {
    RelocateFailure(f, d, t);
    RelocateSteps(f, d, t);
    DeleteSpec(f, d);
    var g1 := Delete(f, d);
    if IsFolder(f, t) {
      FindSound(Roots(g1), t);
    } else {
      EnclosingFolderInside(f, d, t);
      FindSound(Roots(g1), Parent(f, t).value.id);
    }
  }

  /** The folder holding a node that lies strictly inside the tree of `d` is inside that tree too. */
  lemma EnclosingFolderInside(f: Forest, d: nat, t: nat)
    requires WellFormed(f) && d in Nested(f) && t in Nested(f)
    requires t != d && t in Subtree(f, d)
    ensures Parent(f, t).Some? && Parent(f, t).value.id in Subtree(f, d)
  {
    DeleteSpec(f, d);
    Located(f, d);
    Located(f, t);
    var g1 := Delete(f, d);
    var P := Parent(f, d).value;
    var Q := Parent(f, t).value;
    var ks := IdsOf(Q.children);
    assert t !in AllIds(g1);
    KidsPresent(g1, Q.id);
    assert t == ks[IndexOf(ks, t)];
    assert Q.id == P.id ==> t in KidsOf(g1, Q.id);
    assert Q.id != P.id && Q.id !in Subtree(f, d) ==> t in KidsOf(g1, Q.id);
  }

  /**
    A drop keeps exactly the nodes of the forest if and only if it is safe;
    otherwise the dragged tree, and only it, is gone.
   */
  lemma RelocateConserves(f: Forest, d: nat, t: nat)
    requires WellFormed(f) && Relocate(f, d, t).Success?
    ensures AllIds(Relocate(f, d, t).value) == AllIds(f) <==> SafeDrop(f, d, t)
    ensures !SafeDrop(f, d, t) ==>
              && AllIds(Relocate(f, d, t).value) + Subtree(f, d) == AllIds(f)
              && d !in AllIds(Relocate(f, d, t).value)
  {
    RelocateFailure(f, d, t);
    if SafeDrop(f, d, t) {
      SafeDropConserves(f, d, t);
    } else {
      UnsafeDropLoses(f, d, t);
      DeleteSpec(f, d);
      Located(f, d);
      var g := Delete(f, d);
      assert d in Subtree(f, d);
      assert (AllIds(g) + Subtree(f, d))[d] == AllIds(g)[d] + Subtree(f, d)[d];
    }
  }
}
