/**
  The edits the settings window makes to the rule forest from its buttons,
  popups and mouse gestures: deleting a node with everything below it,
  adding new folders and entries at the end of a folder, refilling an empty
  root with a placeholder, and changing a node's own fields in place.
 */
module Editing {

  import opened Results
  import opened Seqs
  import opened Tree
  import opened Forests
  import Rules

  // ---------------------------------------------------------------------
  // Delete

  /**
    The delete gesture and the popups' delete buttons: look up the node's
    parent and remove the node from its children.  A node without a parent
    is left where it is.
   */
  function Delete(f: Forest, x: nat): Forest
  {
    match Parent(f, x)
    case None => f
    case Some(P) => RemoveChild(f, P.id, x)
  }

  /**
    Deleting a node takes exactly its tree out of the forest and drops it
    from its parent's children, keeping the other siblings in order and
    every other node as it was.  Without a parent, nothing changes.
   */
  lemma DeleteSpec(f: Forest, x: nat)
    requires WellFormed(f)
    ensures x !in Nested(f) ==> Delete(f, x) == f
    ensures x in Nested(f) ==> Parent(f, x).Some?
    ensures x in Nested(f) ==>
              var P := Parent(f, x).value;
              var g := Delete(f, x);
              && WellFormed(g)
              && AllIds(g) + Subtree(f, x) == AllIds(f)
              && (forall q :: q in Subtree(f, x) ==> q !in AllIds(g))
              && ViewAt(g, P.id) == Some(FolderView(P.name, RemoveAt(IdsOf(P.children), IndexOf(IdsOf(P.children), x))))
              && (forall q :: q != P.id && q !in Subtree(f, x) ==> ViewAt(g, q) == ViewAt(f, q))
  {
    HasParent(f, x);
    if x in Nested(f) {
      Located(f, x);
      var P := Parent(f, x).value;
      RemoveChildSpec(f, P.id, x);
      Shrink(AllIds(Delete(f, x)), Subtree(f, x), AllIds(f));
    }
  }

  /** Putting a deleted node back where it was restores the forest. */
  lemma DeleteUndone(f: Forest, x: nat)
    requires WellFormed(f) && x in Nested(f)
    ensures Parent(f, x).Some? && Lookup(f, x).Some?
    ensures var P := Parent(f, x).value;
            InsertChild(Delete(f, x), P.id, IndexOf(IdsOf(P.children), x), Lookup(f, x).value) == f
  {
    Located(f, x);
    ReplaceSteps(f, x, Lookup(f, x).value);
    ReplaceSelf(f, x);
    assert Delete(f, x) == RemoveChild(f, Parent(f, x).value.id, x);
  }

  // ---------------------------------------------------------------------
  // Adding nodes

  /** What an add button creates, before it is given its identity. */
  datatype Shape = FolderShape(name: string) | EntryShape(rule: Rules.Rule)

  function Make(id: nat, s: Shape): (n: Node)
    ensures n.id == id && Ids(n) == multiset{id}
  {
    match s
    case FolderShape(name) => Folder(id, name, [])
    case EntryShape(r) => Entry(id, r)
  }

  function ShapeView(s: Shape): View
  {
    match s
    case FolderShape(name) => FolderView(name, [])
    case EntryShape(r) => EntryView(r)
  }

  /** Append a newly created node to the children of folder `q`. */
  function Adopt(f: Forest, q: nat, s: Shape): Forest
  {
    AppendChild(f, q, Make(FreshId(f), s))
  }

  /**
    Adding a node to a folder makes it the folder's last child, brings in
    its one new id, and leaves every other node as it was; when `q` is not
    a folder nothing happens.
   */
  lemma AdoptSpec(f: Forest, q: nat, s: Shape)
    requires WellFormed(f)
    ensures !IsFolder(f, q) ==> Adopt(f, q, s) == f
    ensures IsFolder(f, q) ==>
              var P := Lookup(f, q).value;
              var n := FreshId(f);
              var g := Adopt(f, q, s);
              && WellFormed(g)
              && AllIds(g) == AllIds(f) + multiset{n}
              && ViewAt(g, q) == Some(FolderView(P.name, IdsOf(P.children) + [n]))
              && ViewAt(g, n) == Some(ShapeView(s))
              && (forall r :: r != q && r != n ==> ViewAt(g, r) == ViewAt(f, r))
  {
    if IsFolder(f, q) {
      var n := FreshId(f);
      var x := Make(n, s);
      var cs := Lookup(f, q).value.children;
      AppendIsInsertChild(f, q, x);
      assert forall r :: r in Ids(x) <==> r == n;
      assert Unique(AllIds(f) + Ids(x)) by {
        forall r ensures (AllIds(f) + Ids(x))[r] <= 1 {
          assert (AllIds(f) + Ids(x))[r] == AllIds(f)[r] + (if r == n then 1 else 0);
        }
      }
      InsertChildSpec(f, q, |cs|, x);
      AppendIsInsert(IdsOf(cs), n);
    }
  }

  /**
    A disabled rule of the given kind whose text (the target, for a talk
    rule) is a fixed literal; the remaining fields keep their defaults.
   */
  function Placeholder(k: Kind, text: string): (r: Rules.Rule)
    ensures !r.enabled && Rules.Faults(r) == {}
    ensures r.TextRule? <==> k == TextKind
    ensures r.ListRule? <==> k == ListKind
    ensures r.TalkRule? <==> k == TalkKind
    ensures if r.TalkRule? then r.target.text == text else r.text.text == text
  {
    match k
    case TextKind => Rules.TextRule(false, Rules.Literal(text), true, false, Rules.Literal(""))
    case ListKind => Rules.ListRule(false, Rules.Literal(text), false, Rules.Literal(""))
    case TalkKind => Rules.TalkRule(false, Rules.Literal(text))
  }

  /** The "Add new entry" button of each tree. */
  function AddEntry(f: Forest, k: Kind): Forest
  {
    Adopt(f, Root(f, k).id, EntryShape(Placeholder(k, "Your text goes here")))
  }

  /** The "Add folder" buttons, of the trees and of a folder's popup. */
  function AddFolder(f: Forest, q: nat): Forest
  {
    Adopt(f, q, FolderShape("Untitled folder"))
  }

  /**
    A folder popup's "Add entry" button, in the tree of kind `k`.  In the
    talk tree it creates nothing.
   */
  function AddEntryIn(f: Forest, k: Kind, q: nat): Forest
  {
    if k == TalkKind then f else Adopt(f, q, EntryShape(Placeholder(k, "Your text goes here")))
  }

  /**
    The list tree's "Add last selected" buttons: an enabled rule for the
    last list line chosen, restricted to the last target.
   */
  function AddListSelection(f: Forest, q: nat, text: Rules.Pattern, target: Rules.Pattern): Forest
  {
    Adopt(f, q, EntryShape(Rules.ListRule(true, text, true, target)))
  }

  /** The talk tree's "Add current target" and "Add last seen" buttons: an enabled rule for the target. */
  function AddTalkTarget(f: Forest, q: nat, target: Rules.Pattern): Forest
  {
    Adopt(f, q, EntryShape(Rules.TalkRule(true, target)))
  }

  /**
    The tree buttons' "Add new entry": a new disabled entry of the tree's
    kind goes at the end of the root, with a valid literal text, and nothing
    else changes.
   */
  lemma AddEntrySpec(f: Forest, k: Kind)
    requires WellFormed(f)
    ensures var r := Root(f, k);
            var n := FreshId(f);
            var g := AddEntry(f, k);
            && WellFormed(g)
            && AllIds(g) == AllIds(f) + multiset{n}
            && ViewAt(g, r.id) == Some(FolderView(r.name, IdsOf(r.children) + [n]))
            && ViewAt(g, n) == Some(EntryView(Placeholder(k, "Your text goes here")))
            && !ViewAt(g, n).value.rule.enabled
            && Rules.Faults(ViewAt(g, n).value.rule) == {}
            && (forall q :: q != r.id && q != n ==> ViewAt(g, q) == ViewAt(f, q))
  {
    RootFound(f, k);
    AdoptSpec(f, Root(f, k).id, EntryShape(Placeholder(k, "Your text goes here")));
  }

  /** "Add folder": an empty folder named "Untitled folder" goes at the end of `q`. */
  lemma AddFolderSpec(f: Forest, q: nat)
    requires WellFormed(f) && IsFolder(f, q)
    ensures var P := Lookup(f, q).value;
            var n := FreshId(f);
            var g := AddFolder(f, q);
            && WellFormed(g)
            && AllIds(g) == AllIds(f) + multiset{n}
            && ViewAt(g, q) == Some(FolderView(P.name, IdsOf(P.children) + [n]))
            && ViewAt(g, n) == Some(FolderView("Untitled folder", []))
            && (forall r :: r != q && r != n ==> ViewAt(g, r) == ViewAt(f, r))
  {
    AdoptSpec(f, q, FolderShape("Untitled folder"));
  }

  /** A folder popup's "Add entry" adds a disabled entry in the text and list trees and nothing in the talk tree. */
  lemma AddEntryInSpec(f: Forest, k: Kind, q: nat)
    requires WellFormed(f) && IsFolder(f, q)
    ensures k == TalkKind ==> AddEntryIn(f, k, q) == f
    ensures k != TalkKind ==>
              var n := FreshId(f);
              var g := AddEntryIn(f, k, q);
              && WellFormed(g)
              && AllIds(g) == AllIds(f) + multiset{n}
              && ViewAt(g, q) == Some(FolderView(Lookup(f, q).value.name, IdsOf(Lookup(f, q).value.children) + [n]))
              && ViewAt(g, n) == Some(EntryView(Placeholder(k, "Your text goes here")))
              && (forall r :: r != q && r != n ==> ViewAt(g, r) == ViewAt(f, r))
  {
    AdoptSpec(f, q, EntryShape(Placeholder(k, "Your text goes here")));
  }

  /**
    "Add last selected": an enabled list entry restricted to the target goes
    at the end of `q`; its warnings are exactly those of the two patterns.
   */
  lemma AddListSelectionSpec(f: Forest, q: nat, text: Rules.Pattern, target: Rules.Pattern)
    requires WellFormed(f) && IsFolder(f, q)
    ensures var n := FreshId(f);
            var g := AddListSelection(f, q, text, target);
            && WellFormed(g)
            && AllIds(g) == AllIds(f) + multiset{n}
            && ViewAt(g, q) == Some(FolderView(Lookup(f, q).value.name, IdsOf(Lookup(f, q).value.children) + [n]))
            && ViewAt(g, n) == Some(EntryView(Rules.ListRule(true, text, true, target)))
            && (forall r :: r != q && r != n ==> ViewAt(g, r) == ViewAt(f, r))
    ensures var r := Rules.ListRule(true, text, true, target);
            && (Rules.BadText in Rules.Faults(r) <==> !Rules.Usable(text))
            && (Rules.BadTarget in Rules.Faults(r) <==> !Rules.Usable(target))
  {
    AdoptSpec(f, q, EntryShape(Rules.ListRule(true, text, true, target)));
  }

  /**
    "Add current target" and "Add last seen": an enabled talk entry for the
    target goes at the end of `q`; it is faulty exactly when the pattern is.
   */
  lemma AddTalkTargetSpec(f: Forest, q: nat, target: Rules.Pattern)
    requires WellFormed(f) && IsFolder(f, q)
    ensures var n := FreshId(f);
            var g := AddTalkTarget(f, q, target);
            && WellFormed(g)
            && AllIds(g) == AllIds(f) + multiset{n}
            && ViewAt(g, q) == Some(FolderView(Lookup(f, q).value.name, IdsOf(Lookup(f, q).value.children) + [n]))
            && ViewAt(g, n) == Some(EntryView(Rules.TalkRule(true, target)))
            && (forall r :: r != q && r != n ==> ViewAt(g, r) == ViewAt(f, r))
    ensures Rules.Faults(Rules.TalkRule(true, target)) == {} <==> Rules.Usable(target)
  {
    AdoptSpec(f, q, EntryShape(Rules.TalkRule(true, target)));
  }

  // ---------------------------------------------------------------------
  // The empty-root placeholder

  /** Drawing a tree whose root has no children first gives it one disabled placeholder entry. */
  function Refill(f: Forest, k: Kind): Forest
  {
    var r := Root(f, k);
    if r.Folder? && |r.children| == 0 then
      Adopt(f, r.id, EntryShape(Placeholder(k, "Add some text here!")))
    else f
  }

  /**
    After a refill the root is never empty: a non-empty root is left alone,
    and an empty one gets exactly the placeholder.
   */
  lemma RefillSpec(f: Forest, k: Kind)
    requires WellFormed(f)
    ensures var r := Root(f, k);
            var g := Refill(f, k);
            && WellFormed(g)
            && Root(g, k).id == r.id
            && Root(g, k).Folder? && |Root(g, k).children| > 0
            && (|r.children| > 0 ==> g == f)
            && (|r.children| == 0 ==>
                  && IdsOf(Root(g, k).children) == [FreshId(f)]
                  && ViewAt(g, FreshId(f)) == Some(EntryView(Placeholder(k, "Add some text here!")))
                  && (forall q :: q != r.id && q != FreshId(f) ==> ViewAt(g, q) == ViewAt(f, q)))
  {
    var r := Root(f, k);
    RootFound(f, k);
    var g := Refill(f, k);
    if |r.children| == 0 {
      AdoptSpec(f, r.id, EntryShape(Placeholder(k, "Add some text here!")));
      assert Roots(g) == GraftIn(Roots(f), r.id, r.children + [Make(FreshId(f), EntryShape(Placeholder(k, "Add some text here!")))]);
      assert Root(g, k).id == r.id;
      RootFound(g, k);
    }
  }

  /** Refilling twice is refilling once. */
  lemma RefillIdempotent(f: Forest, k: Kind)
    requires WellFormed(f)
    ensures Refill(Refill(f, k), k) == Refill(f, k)
  {
    RefillSpec(f, k);
  }

  // ---------------------------------------------------------------------
  // Changing a node's own fields

  /** A node of a well-formed forest that is an entry hangs below a root. */
  lemma EntryIsNested(f: Forest, x: nat)
    requires WellFormed(f) && Lookup(f, x).Some? && Lookup(f, x).value.Entry?
    ensures x in Nested(f)
  {
    RootFound(f, TextKind);
    RootFound(f, ListKind);
    RootFound(f, TalkKind);
    Once(f, x);
    IdsSplit(Roots(f));
    assert IdsOf(Roots(f)) == [f.text.id, f.list.id, f.talk.id];
    assert AllIds(f)[x] == multiset(IdsOf(Roots(f)))[x] + Nested(f)[x];
  }

  /** Store a new rule in the entry `x`; anything else is left alone. */
  function SetRule(f: Forest, x: nat, r: Rules.Rule): Forest
  {
    match Lookup(f, x)
    case Some(Entry(_, _)) => Replace(f, x, Entry(x, r))
    case _ => f
  }

  /** A double click on an entry: flip whether it is enabled. */
  function Toggle(f: Forest, x: nat): Forest
  {
    match Lookup(f, x)
    case Some(Entry(_, r)) => SetRule(f, x, Rules.Toggled(r))
    case _ => f
  }

  /** An edit made in an entry's popup. */
  function EditRule(f: Forest, x: nat, e: Rules.Edit): Forest
  {
    match Lookup(f, x)
    case Some(Entry(_, r)) => SetRule(f, x, Rules.Apply(r, e))
    case _ => f
  }

  /** A folder popup's rename box. */
  function Rename(f: Forest, x: nat, name: string): Forest
  {
    match Lookup(f, x)
    case Some(Folder(_, _, cs)) => Replace(f, x, Folder(x, name, cs))
    case _ => f
  }

  /**
    Storing a rule in an entry changes what that entry shows and nothing
    else; no node appears or disappears.
   */
  lemma SetRuleSpec(f: Forest, x: nat, r: Rules.Rule)
    requires WellFormed(f)
    ensures !(Lookup(f, x).Some? && Lookup(f, x).value.Entry?) ==> SetRule(f, x, r) == f
    ensures Lookup(f, x).Some? && Lookup(f, x).value.Entry? ==>
              var g := SetRule(f, x, r);
              && WellFormed(g)
              && AllIds(g) == AllIds(f)
              && ViewAt(g, x) == Some(EntryView(r))
              && (forall q :: q != x ==> ViewAt(g, q) == ViewAt(f, q))
  {
    if Lookup(f, x).Some? && Lookup(f, x).value.Entry? {
      EntryIsNested(f, x);
      Once(f, x);
      ReplaceSpec(f, x, Entry(x, r));
    }
  }

  /** A double click flips the entry's enabled flag, keeps its validity, and changes nothing else. */
  lemma ToggleSpec(f: Forest, x: nat)
    requires WellFormed(f) && Lookup(f, x).Some? && Lookup(f, x).value.Entry?
    ensures var r := Lookup(f, x).value.rule;
            var g := Toggle(f, x);
            && WellFormed(g)
            && AllIds(g) == AllIds(f)
            && ViewAt(g, x) == Some(EntryView(Rules.Toggled(r)))
            && ViewAt(g, x).value.rule.enabled == !r.enabled
            && Rules.Faults(ViewAt(g, x).value.rule) == Rules.Faults(r)
            && (forall q :: q != x ==> ViewAt(g, q) == ViewAt(f, q))
  {
    SetRuleSpec(f, x, Rules.Toggled(Lookup(f, x).value.rule));
  }

  /** A second replacement of the same node overrides the first. */
  lemma ReplaceTwice(f: Forest, x: nat, y: Node, z: Node)
    requires WellFormed(f) && x in Nested(f)
    requires Lookup(f, x).Some? && SameShape(Lookup(f, x).value, y)
    ensures Replace(Replace(f, x, y), x, z) == Replace(f, x, z)
  {
    ReplacedParent(f, x, y);
    var P := Parent(f, x).value;
    var cs := P.children;
    var i := IndexOf(IdsOf(cs), x);
    var cs2 := cs[i := y];
    var g := Replace(f, x, y);
    assert Replace(g, x, z) == Regraft(g, P.id, cs2[i := z]);
    GraftTwice(Roots(f), P.id, cs2, cs2[i := z]);
    assert cs2[i := z] == cs[i := z];
    assert Roots(Replace(g, x, z)) == Roots(Replace(f, x, z));
  }

  /** After a replacement the node's parent holds the new node at the old position. */
  lemma ReplacedParent(f: Forest, x: nat, y: Node)
    requires WellFormed(f) && x in Nested(f)
    requires Lookup(f, x).Some? && SameShape(Lookup(f, x).value, y)
    ensures Parent(f, x).Some?
    ensures var P := Parent(f, x).value;
            var i := IndexOf(IdsOf(P.children), x);
            && 0 <= i < |P.children|
            && Replace(f, x, y) == Regraft(f, P.id, P.children[i := y])
            && IndexOf(IdsOf(P.children[i := y]), x) == i
            && Parent(Replace(f, x, y), x) == Some(P.(children := P.children[i := y]))
  {
    Located(f, x);
    var P := Parent(f, x).value;
    var p := P.id;
    var cs := P.children;
    var i := IndexOf(IdsOf(cs), x);
    var cs2 := cs[i := y];
    var g := Replace(f, x, y);
    assert g == Regraft(f, p, cs2);
    Once(f, p);
    GraftFindSelf(Roots(f), p, cs2);
    ReplaceSpec(f, x, y);
    assert Lookup(g, p) == Some(P.(children := cs2));
    assert IdsOf(cs2) == IdsOf(cs);
    OwnerIsParent(g, p, x);
  }

  /** Putting a node back as it is changes nothing. */
  lemma ReplaceSelf(f: Forest, x: nat)
    requires WellFormed(f) && x in Nested(f)
    ensures Lookup(f, x).Some? && Replace(f, x, Lookup(f, x).value) == f
  {
    Located(f, x);
    var P := Parent(f, x).value;
    var i := IndexOf(IdsOf(P.children), x);
    Once(f, P.id);
    assert P.children[i := P.children[i]] == P.children;
    GraftSame(Roots(f), P.id);
    assert Roots(Replace(f, x, Lookup(f, x).value)) == Roots(f);
  }

  /** Two double clicks on the same entry leave the forest as it was. */
  lemma ToggleTwice(f: Forest, x: nat)
    requires WellFormed(f) && Lookup(f, x).Some? && Lookup(f, x).value.Entry?
    ensures Toggle(Toggle(f, x), x) == f
  {
    var r := Lookup(f, x).value.rule;
    EntryIsNested(f, x);
    Once(f, x);
    var g := Toggle(f, x);
    SetRuleSpec(f, x, Rules.Toggled(r));
    FindSound(Roots(g), x);
    assert Lookup(g, x) == Some(Entry(x, Rules.Toggled(r)));
    assert Rules.Toggled(Rules.Toggled(r)) == r;
    ReplaceTwice(f, x, Entry(x, Rules.Toggled(r)), Entry(x, r));
    ReplaceSelf(f, x);
  }

  /**
    A popup edit changes only the edited entry, keeps it the same kind of
    rule, and can only change the validity of the part it edits.
   */
  lemma EditRuleSpec(f: Forest, x: nat, e: Rules.Edit)
    requires WellFormed(f) && Lookup(f, x).Some? && Lookup(f, x).value.Entry?
    ensures var r := Lookup(f, x).value.rule;
            var g := EditRule(f, x, e);
            && WellFormed(g)
            && AllIds(g) == AllIds(f)
            && ViewAt(g, x) == Some(EntryView(Rules.Apply(r, e)))
            && (forall q :: q != x ==> ViewAt(g, q) == ViewAt(f, q))
  {
    SetRuleSpec(f, x, Rules.Apply(Lookup(f, x).value.rule, e));
  }

  /**
    Renaming a folder below a root changes its name and nothing else: it
    keeps its children, and every other node looks the same.
   */
  lemma RenameSpec(f: Forest, x: nat, name: string)
    requires WellFormed(f) && x in Nested(f) && IsFolder(f, x)
    ensures var cs := Lookup(f, x).value.children;
            var g := Rename(f, x, name);
            && WellFormed(g)
            && AllIds(g) == AllIds(f)
            && ViewAt(g, x) == Some(FolderView(name, IdsOf(cs)))
            && (forall q :: q != x ==> ViewAt(g, q) == ViewAt(f, q))
  {
    Once(f, x);
    ReplaceSpec(f, x, Folder(x, name, Lookup(f, x).value.children));
  }
}
