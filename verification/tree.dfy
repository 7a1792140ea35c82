/**
  The rule tree: a node is a folder with ordered children or an entry that
  holds one rule.  Nodes are told apart by a numeric id, which stands for the
  object identity the settings window relies on.  Everything here is stated
  for a sequence of sibling trees, so the same lemmas serve a folder's
  children and the three roots of the configuration.
 */
module Tree {

  import opened Results
  import opened Seqs
  import Rules

  datatype Node =
    | Folder(id: nat, name: string, children: seq<Node>)
    | Entry(id: nat, rule: Rules.Rule)

  /** The ids of a list of siblings, in order. */
  function IdsOf(s: seq<Node>): (r: seq<nat>)
    ensures |r| == |s|
    ensures forall i :: 0 <= i < |s| ==> r[i] == s[i].id
  {
    seq(|s|, i requires 0 <= i < |s| => s[i].id)
  }

  /** Every id in the tree `n`, itself included, with multiplicity. */
  function Ids(n: Node): multiset<nat>
    decreases n, 1
  {
    multiset{n.id} + (if n.Folder? then SeqIds(n.children) else multiset{})
  }

  function SeqIds(s: seq<Node>): multiset<nat>
    decreases s, 0
  {
    if |s| == 0 then multiset{} else Ids(s[0]) + SeqIds(s[1..])
  }

  /** The ids strictly below the root of `n`. */
  function Below(n: Node): multiset<nat>
  {
    if n.Folder? then SeqIds(n.children) else multiset{}
  }

  function SeqBelow(s: seq<Node>): multiset<nat>
  {
    if |s| == 0 then multiset{} else Below(s[0]) + SeqBelow(s[1..])
  }

  /** No id occurs twice. */
  ghost predicate Unique(m: multiset<nat>)
  {
    forall q :: m[q] <= 1
  }

  /** The first node with id `q`, in pre-order. */
  function Find(n: Node, q: nat): Option<Node>
    decreases n, 1
  {
    if n.id == q then Some(n)
    else if n.Folder? then FindIn(n.children, q)
    else None
  }

  function FindIn(s: seq<Node>, q: nat): Option<Node>
    decreases s, 0
  {
    if |s| == 0 then None
    else
      var h := Find(s[0], q);
      if h.Some? then h else FindIn(s[1..], q)
  }

  /**
    The folder whose children include a node with id `d`: the first such
    folder in pre-order, a folder's own children being looked at before its
    descendants.
   */
  function ParentOf(n: Node, d: nat): (r: Option<Node>)
    ensures r.Some? ==> r.value.Folder? && d in IdsOf(r.value.children)
    decreases n, 1
  {
    if n.Entry? then None
    else if d in IdsOf(n.children) then Some(n)
    else ParentIn(n.children, d)
  }

  function ParentIn(s: seq<Node>, d: nat): (r: Option<Node>)
    ensures r.Some? ==> r.value.Folder? && d in IdsOf(r.value.children)
    decreases s, 0
  {
    if |s| == 0 then None
    else
      var h := ParentOf(s[0], d);
      if h.Some? then h else ParentIn(s[1..], d)
  }

  /**
    The tree with the children of folder `p` replaced by `cs`.  This is the
    one structural edit: removing, inserting and appending a child are all
    a new children list for one folder.
   */
  function Graft(n: Node, p: nat, cs: seq<Node>): (r: Node)
    ensures r.id == n.id && r.Folder? == n.Folder?
    decreases n, 1
  {
    match n
    case Entry(_, _) => n
    case Folder(id, name, kids) =>
      if id == p then Folder(id, name, cs) else Folder(id, name, GraftIn(kids, p, cs))
  }

  function GraftIn(s: seq<Node>, p: nat, cs: seq<Node>): (r: seq<Node>)
    ensures |r| == |s| && IdsOf(r) == IdsOf(s)
    ensures forall i :: 0 <= i < |s| ==> r[i].Folder? == s[i].Folder?
    decreases s, 0
  {
    if |s| == 0 then [] else [Graft(s[0], p, cs)] + GraftIn(s[1..], p, cs)
  }

  /**
    What the settings window shows of one node, without the nodes below:
    a folder's name and the ids of its children in order, or an entry's rule.
   */
  datatype View = FolderView(name: string, kids: seq<nat>) | EntryView(rule: Rules.Rule)

  function ViewOf(n: Node): View
  {
    match n
    case Folder(_, name, cs) => FolderView(name, IdsOf(cs))
    case Entry(_, r) => EntryView(r)
  }

  function ViewOpt(o: Option<Node>): Option<View>
  {
    match o
    case None => None
    case Some(m) => Some(ViewOf(m))
  }

  function ViewIn(s: seq<Node>, q: nat): Option<View>
  {
    ViewOpt(FindIn(s, q))
  }

  // ---------------------------------------------------------------------
  // Ids

  lemma {:induction false} IdsAppend(a: seq<Node>, b: seq<Node>)
    ensures SeqIds(a + b) == SeqIds(a) + SeqIds(b)
    decreases |a|
  {
    if |a| == 0 {
      assert a + b == b;
    } else {
      assert (a + b)[1..] == a[1..] + b;
      IdsAppend(a[1..], b);
    }
  }

  /** The ids of siblings are their own ids plus the ids below them. */
  lemma {:induction false} IdsSplit(s: seq<Node>)
    ensures SeqIds(s) == multiset(IdsOf(s)) + SeqBelow(s)
    decreases |s|
  {
    if |s| > 0 {
      IdsSplit(s[1..]);
      assert IdsOf(s) == [s[0].id] + IdsOf(s[1..]);
    }
  }

  lemma UniqueWithin(a: multiset<nat>, b: multiset<nat>)
    requires Unique(b) && a <= b
    ensures Unique(a)
  {
    forall q ensures a[q] <= 1 {
      assert a[q] <= b[q];
    }
  }

  /** Adding the same ids to both sides of a balance keeps it. */
  lemma Rebalance(x: multiset<nat>, b: multiset<nat>, o: multiset<nat>, a: multiset<nat>, c: multiset<nat>)
    requires b + o == a + c
    ensures (x + b) + o == (x + a) + c
    ensures (b + x) + o == (a + x) + c
  {
    forall k ensures ((x + b) + o)[k] == ((x + a) + c)[k] {
      assert (b + o)[k] == (a + c)[k];
    }
    forall k ensures ((b + x) + o)[k] == ((a + x) + c)[k] {
      assert (b + o)[k] == (a + c)[k];
    }
  }

  // ---------------------------------------------------------------------
  // Find

  lemma {:induction false} FindAppend(a: seq<Node>, b: seq<Node>, q: nat)
    ensures FindIn(a + b, q) == if FindIn(a, q).Some? then FindIn(a, q) else FindIn(b, q)
    decreases |a|
  {
    if |a| == 0 {
      assert a + b == b;
    } else {
      assert (a + b)[0] == a[0];
      assert (a + b)[1..] == a[1..] + b;
      FindAppend(a[1..], b, q);
    }
  }

  /**
    A search succeeds exactly for the ids present; what it finds carries the
    id sought and lies inside the searched trees.
   */
  lemma {:induction false} FindSound(s: seq<Node>, q: nat)
    ensures FindIn(s, q).Some? <==> q in SeqIds(s)
    ensures FindIn(s, q).Some? ==>
              FindIn(s, q).value.id == q && Ids(FindIn(s, q).value) <= SeqIds(s)
    decreases s
  {
    if |s| > 0 {
      var h := Find(s[0], q);
      assert SeqIds(s) == Ids(s[0]) + SeqIds(s[1..]);
      if s[0].id == q {
        assert h == Some(s[0]);
      } else if s[0].Folder? {
        FindSound(s[0].children, q);
        assert h == FindIn(s[0].children, q);
        assert Ids(s[0]) == multiset{s[0].id} + SeqIds(s[0].children);
      } else {
        assert h == None;
      }
      if h.None? {
        FindSound(s[1..], q);
      }
    }
  }

  lemma FindSoundNode(n: Node, q: nat)
    ensures Find(n, q).Some? <==> q in Ids(n)
    ensures Find(n, q).Some? ==> Find(n, q).value.id == q && Ids(Find(n, q).value) <= Ids(n)
  {
    FindSound([n], q);
    assert [n][1..] == [];
  }

  /** Whatever is found strictly below the roots has all its ids strictly below them. */
  lemma {:induction false} FindBelow(s: seq<Node>, q: nat)
    requires FindIn(s, q).Some?
    ensures Below(FindIn(s, q).value) <= SeqBelow(s)
    decreases |s|
  {
    if Find(s[0], q).Some? {
      if s[0].id != q {
        FindSound(s[0].children, q);
      }
    } else {
      FindBelow(s[1..], q);
    }
  }

  /**
    When ids are unique, searching for an id inside a found subtree gives
    the same node as searching the whole forest.
   */
  lemma {:induction false} FindNested(s: seq<Node>, q: nat, r: nat)
    requires FindIn(s, q).Some?
    requires r in Ids(FindIn(s, q).value)
    requires SeqIds(s)[r] == 1
    ensures FindIn(s, r) == Find(FindIn(s, q).value, r)
    decreases s
  {
    var m := FindIn(s, q).value;
    FindSound(s, q);
    if Find(s[0], q).Some? {
      FindSoundNode(s[0], q);
      FindSoundNode(s[0], r);
      if s[0].id != q {
        FindSound(s[0].children, q);
        assert r in SeqIds(s[0].children);
        assert Ids(s[0])[r] == (if s[0].id == r then 1 else 0) + SeqIds(s[0].children)[r];
        FindNested(s[0].children, q, r);
      }
    } else {
      FindSound(s[1..], q);
      FindSoundNode(s[0], r);
      FindNested(s[1..], q, r);
    }
  }

  /** With unique ids, a child is found by its own id. */
  lemma FindChild(cs: seq<Node>, i: nat)
    requires i < |cs| && Unique(SeqIds(cs))
    ensures FindIn(cs, cs[i].id) == Some(cs[i])
  {
    var a, b := cs[..i], cs[i..];
    assert cs == a + b;
    IdsAppend(a, b);
    FindAppend(a, b, cs[i].id);
    assert b[0] == cs[i];
    assert Find(b[0], cs[i].id) == Some(cs[i]);
    assert FindIn(b, cs[i].id) == Some(cs[i]);
    assert SeqIds(b) == Ids(cs[i]) + SeqIds(b[1..]);
    assert SeqIds(b)[cs[i].id] >= 1;
    assert SeqIds(cs)[cs[i].id] <= 1;
    assert cs[i].id !in SeqIds(a);
    FindSound(a, cs[i].id);
  }

  // ---------------------------------------------------------------------
  // Parent

  /** A parent is found for exactly the ids strictly below the roots. */
  lemma {:induction false} ParentExists(s: seq<Node>, d: nat)
    ensures ParentIn(s, d).Some? <==> d in SeqBelow(s)
    decreases s
  {
    if |s| > 0 {
      ParentExists(s[1..], d);
      if s[0].Folder? {
        ParentExists(s[0].children, d);
        IdsSplit(s[0].children);
      }
    }
  }

  /** The parent found is a node of the forest and, with unique ids, the one found under its own id. */
  lemma {:induction false} ParentSound(s: seq<Node>, d: nat)
    requires ParentIn(s, d).Some?
    ensures Ids(ParentIn(s, d).value) <= SeqIds(s)
    ensures SeqIds(s)[ParentIn(s, d).value.id] == 1 ==> FindIn(s, ParentIn(s, d).value.id) == ParentIn(s, d)
    decreases s
  {
    var p := ParentIn(s, d).value;
    var head := Ids(s[0]);
    var tail := SeqIds(s[1..]);
    assert SeqIds(s) == head + tail;
    if ParentOf(s[0], d).Some? {
      assert p == ParentOf(s[0], d).value;
      if s[0].Folder? && d in IdsOf(s[0].children) {
        assert p == s[0];
      } else {
        var cs := s[0].children;
        assert head == multiset{s[0].id} + SeqIds(cs);
        assert p == ParentIn(cs, d).value;
        ParentSound(cs, d);
        assert p.id in SeqIds(cs);
        assert SeqIds(s)[p.id] == (if s[0].id == p.id then 1 else 0) + SeqIds(cs)[p.id] + tail[p.id];
        assert SeqIds(s)[p.id] == 1 ==> FindIn(cs, p.id) == Some(p);
      }
    } else {
      assert p == ParentIn(s[1..], d).value;
      ParentSound(s[1..], d);
      assert p.id in tail;
      FindSoundNode(s[0], p.id);
      assert SeqIds(s)[p.id] == head[p.id] + tail[p.id];
    }
  }

  lemma ParentExistsNode(n: Node, d: nat)
    ensures ParentOf(n, d).Some? <==> d in Below(n)
  {
    ParentExists([n], d);
    assert [n][1..] == [];
  }

  /**
    With unique ids, a node that is a child of a folder found among `cs` is
    not also one of the trees `cs` themselves.
   */
  lemma ChildNotDeeper(cs: seq<Node>, q: nat, d: nat)
    requires Unique(SeqIds(cs))
    requires FindIn(cs, q).Some? && FindIn(cs, q).value.Folder?
    ensures d in IdsOf(FindIn(cs, q).value.children) ==> d !in IdsOf(cs)
  {
    var owner := FindIn(cs, q).value;
    FindBelow(cs, q);
    IdsSplit(cs);
    IdsSplit(owner.children);
    assert Below(owner) == SeqIds(owner.children);
    assert SeqIds(cs)[d] == multiset(IdsOf(cs))[d] + SeqBelow(cs)[d];
  }

  /**
    With unique ids the parent does not depend on the order of the search:
    any folder of the forest that has `d` among its children is the one found.
   */
  lemma {:induction false} ParentIsOwner(s: seq<Node>, q: nat, d: nat)
    requires Unique(SeqIds(s))
    requires FindIn(s, q).Some? && FindIn(s, q).value.Folder?
    requires d in IdsOf(FindIn(s, q).value.children)
    ensures ParentIn(s, d) == FindIn(s, q)
    decreases s, 0
  {
    assert SeqIds(s) == Ids(s[0]) + SeqIds(s[1..]);
    if Find(s[0], q).Some? {
      UniqueWithin(Ids(s[0]), SeqIds(s));
      ParentIsOwnerNode(s[0], q, d);
    } else {
      var owner := FindIn(s[1..], q).value;
      FindSound(s[1..], q);
      IdsSplit(owner.children);
      assert d in Ids(owner);
      assert d in SeqIds(s[1..]);
      assert SeqIds(s)[d] == Ids(s[0])[d] + SeqIds(s[1..])[d];
      assert d !in Ids(s[0]);
      assert Below(s[0]) <= Ids(s[0]);
      ParentExistsNode(s[0], d);
      assert ParentOf(s[0], d).None?;
      UniqueWithin(SeqIds(s[1..]), SeqIds(s));
      ParentIsOwner(s[1..], q, d);
      assert ParentIn(s, d) == ParentIn(s[1..], d);
    }
  }

  lemma {:induction false} ParentIsOwnerNode(n: Node, q: nat, d: nat)
    requires Unique(Ids(n))
    requires Find(n, q).Some? && Find(n, q).value.Folder?
    requires d in IdsOf(Find(n, q).value.children)
    ensures ParentOf(n, d) == Find(n, q)
    decreases n, 1
  {
    if n.id != q {
      assert Find(n, q) == FindIn(n.children, q);
      UniqueWithin(SeqIds(n.children), Ids(n));
      ChildNotDeeper(n.children, q, d);
      ParentIsOwner(n.children, q, d);
    }
  }

  // ---------------------------------------------------------------------
  // Graft

  lemma {:induction false} GraftMissing(s: seq<Node>, p: nat, cs: seq<Node>)
    requires p !in SeqIds(s)
    ensures GraftIn(s, p, cs) == s
    decreases s
  {
    if |s| > 0 {
      GraftMissing(s[1..], p, cs);
      if s[0].Folder? {
        GraftMissing(s[0].children, p, cs);
      }
    }
  }

  lemma GraftMissingNode(n: Node, p: nat, cs: seq<Node>)
    requires p !in Ids(n)
    ensures Graft(n, p, cs) == n
  {
    if n.Folder? {
      GraftMissing(n.children, p, cs);
    }
  }

  /**
    Replacing the children of the folder `p` takes away the ids of the old
    children's trees and brings in those of the new ones, and nothing else.
   */
  lemma {:induction false} GraftIds(s: seq<Node>, p: nat, cs: seq<Node>)
    requires SeqIds(s)[p] == 1
    requires FindIn(s, p).Some? && FindIn(s, p).value.Folder?
    ensures SeqIds(GraftIn(s, p, cs)) + SeqIds(FindIn(s, p).value.children)
         == SeqIds(s) + SeqIds(cs)
    decreases s, 0
  {
    var g := GraftIn(s, p, cs);
    assert g[0] == Graft(s[0], p, cs) && g[1..] == GraftIn(s[1..], p, cs);
    assert SeqIds(s) == Ids(s[0]) + SeqIds(s[1..]);
    assert SeqIds(g) == Ids(g[0]) + SeqIds(g[1..]);
    FindSoundNode(s[0], p);
    if p in Ids(s[0]) {
      GraftMissing(s[1..], p, cs);
      GraftIdsNode(s[0], p, cs);
      assert FindIn(s, p) == Find(s[0], p);
      Rebalance(SeqIds(s[1..]), Ids(g[0]), SeqIds(FindIn(s, p).value.children), Ids(s[0]), SeqIds(cs));
    } else {
      GraftMissingNode(s[0], p, cs);
      assert FindIn(s, p) == FindIn(s[1..], p);
      GraftIds(s[1..], p, cs);
      Rebalance(Ids(s[0]), SeqIds(g[1..]), SeqIds(FindIn(s, p).value.children), SeqIds(s[1..]), SeqIds(cs));
    }
  }

  lemma {:induction false} GraftIdsNode(n: Node, p: nat, cs: seq<Node>)
    requires Ids(n)[p] == 1
    requires Find(n, p).Some? && Find(n, p).value.Folder?
    ensures Ids(Graft(n, p, cs)) + SeqIds(Find(n, p).value.children) == Ids(n) + SeqIds(cs)
    decreases n, 1
  {
    if n.id != p {
      assert Find(n, p) == FindIn(n.children, p);
      assert Graft(n, p, cs) == n.(children := GraftIn(n.children, p, cs));
      GraftIds(n.children, p, cs);
      Rebalance(multiset{n.id}, SeqIds(GraftIn(n.children, p, cs)), SeqIds(Find(n, p).value.children),
                SeqIds(n.children), SeqIds(cs));
    }
  }

  /** After the replacement the folder `p` is found with the new children. */
  lemma {:induction false} GraftFindSelf(s: seq<Node>, p: nat, cs: seq<Node>)
    requires SeqIds(s)[p] == 1
    requires FindIn(s, p).Some? && FindIn(s, p).value.Folder?
    ensures FindIn(GraftIn(s, p, cs), p) == Some(FindIn(s, p).value.(children := cs))
    decreases s
  {
    FindSoundNode(s[0], p);
    if p in Ids(s[0]) {
      if s[0].id != p {
        GraftFindSelf(s[0].children, p, cs);
      }
    } else {
      GraftMissingNode(s[0], p, cs);
      GraftFindSelf(s[1..], p, cs);
    }
  }

  /**
    Every other node keeps its view, provided the new children list agrees
    with the old one about it: found the same way when it was below `p`,
    absent when it was not.
   */
  lemma {:induction false} GraftFindOther(s: seq<Node>, p: nat, cs: seq<Node>, q: nat)
    requires SeqIds(s)[p] == 1
    requires FindIn(s, p).Some? && FindIn(s, p).value.Folder?
    requires q != p
    requires q in SeqIds(FindIn(s, p).value.children) ==>
               FindIn(cs, q) == FindIn(FindIn(s, p).value.children, q)
    requires q !in SeqIds(FindIn(s, p).value.children) ==> q !in SeqIds(cs)
    ensures ViewIn(GraftIn(s, p, cs), q) == ViewIn(s, q)
    decreases s
  {
    var before := FindIn(s, p).value.children;
    var g := GraftIn(s, p, cs);
    FindSoundNode(s[0], p);
    if p in Ids(s[0]) {
      GraftMissing(s[1..], p, cs);
      assert ViewOpt(Find(g[0], q)) == ViewOpt(Find(s[0], q)) by {
        if s[0].id == q {
        } else if s[0].id == p {
          FindSound(before, q);
          FindSound(cs, q);
        } else {
          GraftFindOther(s[0].children, p, cs, q);
        }
      }
    } else {
      GraftMissingNode(s[0], p, cs);
      GraftFindOther(s[1..], p, cs, q);
    }
  }

  /** A second replacement of the same folder's children overrides the first. */
  lemma {:induction false} GraftTwice(s: seq<Node>, p: nat, a: seq<Node>, b: seq<Node>)
    ensures GraftIn(GraftIn(s, p, a), p, b) == GraftIn(s, p, b)
    decreases s
  {
    if |s| > 0 {
      GraftTwice(s[1..], p, a, b);
      if s[0].Folder? && s[0].id != p {
        GraftTwice(s[0].children, p, a, b);
      }
    }
  }

  /** Replacing a folder's children by the children it has changes nothing. */
  lemma {:induction false} GraftSame(s: seq<Node>, p: nat)
    requires SeqIds(s)[p] == 1
    requires FindIn(s, p).Some? && FindIn(s, p).value.Folder?
    ensures GraftIn(s, p, FindIn(s, p).value.children) == s
    decreases s
  {
    var cs := FindIn(s, p).value.children;
    FindSoundNode(s[0], p);
    if p in Ids(s[0]) {
      GraftMissing(s[1..], p, cs);
      if s[0].id != p {
        GraftSame(s[0].children, p);
      }
    } else {
      GraftMissingNode(s[0], p, cs);
      GraftSame(s[1..], p);
    }
  }

  /**
    After the replacement, a node that was nowhere in the forest before is
    found exactly as in the new children list.
   */
  lemma {:induction false} GraftFindNew(s: seq<Node>, p: nat, cs: seq<Node>, q: nat)
    requires SeqIds(s)[p] == 1
    requires FindIn(s, p).Some? && FindIn(s, p).value.Folder?
    requires q !in SeqIds(s)
    ensures FindIn(GraftIn(s, p, cs), q) == FindIn(cs, q)
    decreases s
  {
    var g := GraftIn(s, p, cs);
    assert g[0] == Graft(s[0], p, cs) && g[1..] == GraftIn(s[1..], p, cs);
    assert SeqIds(s) == Ids(s[0]) + SeqIds(s[1..]);
    FindSoundNode(s[0], p);
    FindSoundNode(s[0], q);
    if p in Ids(s[0]) {
      GraftMissing(s[1..], p, cs);
      FindSound(s[1..], q);
      if s[0].id != p {
        assert Ids(s[0]) == multiset{s[0].id} + SeqIds(s[0].children);
        GraftFindNew(s[0].children, p, cs, q);
      }
    } else {
      GraftMissingNode(s[0], p, cs);
      assert FindIn(s, p) == FindIn(s[1..], p);
      GraftFindNew(s[1..], p, cs, q);
    }
  }

  // ---------------------------------------------------------------------
  // Child lists under removal and insertion

  lemma IdsOfRemoveAt(cs: seq<Node>, i: nat)
    requires i < |cs|
    ensures IdsOf(RemoveAt(cs, i)) == RemoveAt(IdsOf(cs), i)
  {
  }

  lemma IdsOfInsert(cs: seq<Node>, i: nat, x: Node)
    requires i <= |cs|
    ensures IdsOf(Insert(cs, i, x)) == Insert(IdsOf(cs), i, x.id)
  {
  }

  /** Removing a child takes away exactly the ids of its tree. */
  lemma SeqIdsRemoveAt(cs: seq<Node>, i: nat)
    requires i < |cs|
    ensures SeqIds(RemoveAt(cs, i)) + Ids(cs[i]) == SeqIds(cs)
  {
    var a, b := cs[..i], cs[i + 1..];
    var x := cs[i];
    assert cs == a + ([x] + b);
    IdsAppend(a, [x] + b);
    IdsAppend([x], b);
    IdsAppend(a, b);
    assert SeqIds([x]) == Ids(x) by {
      assert [x][1..] == [];
    }
    var sa, sb, sx := SeqIds(a), SeqIds(b), Ids(x);
    assert SeqIds(cs) == sa + (sx + sb);
    assert SeqIds(RemoveAt(cs, i)) == sa + sb;
    forall k ensures ((sa + sb) + sx)[k] == (sa + (sx + sb))[k] {
    }
  }

  /** Inserting a child brings in exactly the ids of its tree. */
  lemma SeqIdsInsert(cs: seq<Node>, i: nat, x: Node)
    requires i <= |cs|
    ensures SeqIds(Insert(cs, i, x)) == SeqIds(cs) + Ids(x)
  {
    var a, b := cs[..i], cs[i..];
    assert cs == a + b;
    assert Insert(cs, i, x) == a + ([x] + b);
    IdsAppend(a, [x] + b);
    IdsAppend([x], b);
    IdsAppend(a, b);
    assert SeqIds([x]) == Ids(x);
  }

  /** A search that misses the removed child's tree is not affected by its removal. */
  lemma FindRemoveAt(cs: seq<Node>, i: nat, q: nat)
    requires i < |cs| && q !in Ids(cs[i])
    ensures FindIn(RemoveAt(cs, i), q) == FindIn(cs, q)
  {
    var a, b := cs[..i], cs[i + 1..];
    assert cs == a + ([cs[i]] + b);
    FindAppend(a, [cs[i]] + b, q);
    FindAppend([cs[i]], b, q);
    FindAppend(a, b, q);
    FindSoundNode(cs[i], q);
    assert FindIn([cs[i]], q) == Find(cs[i], q);
  }

  /**
    A search that misses the inserted tree is not affected by the insertion,
    and one for a node of the inserted tree that occurred nowhere else finds
    it inside that tree.
   */
  lemma FindInsert(cs: seq<Node>, i: nat, x: Node, q: nat)
    requires i <= |cs|
    ensures q !in Ids(x) ==> FindIn(Insert(cs, i, x), q) == FindIn(cs, q)
    ensures q in Ids(x) && q !in SeqIds(cs) ==> FindIn(Insert(cs, i, x), q) == Find(x, q)
  {
    var a, b := cs[..i], cs[i..];
    assert cs == a + b;
    assert Insert(cs, i, x) == a + ([x] + b);
    FindAppend(a, [x] + b, q);
    FindAppend([x], b, q);
    FindAppend(a, b, q);
    FindSoundNode(x, q);
    IdsAppend(a, b);
    FindSound(a, q);
    assert FindIn([x], q) == Find(x, q);
  }

  // ---------------------------------------------------------------------
  // Fresh ids

  /** A number above every id in the tree. */
  function Bound(n: Node): (r: nat)
    ensures forall q :: q in Ids(n) ==> q < r
    decreases n, 1
  {
    var below := if n.Folder? then SeqBound(n.children) else 0;
    if n.id + 1 < below then below else n.id + 1
  }

  function SeqBound(s: seq<Node>): (r: nat)
    ensures forall q :: q in SeqIds(s) ==> q < r
    decreases s, 0
  {
    if |s| == 0 then 0
    else
      var a := Bound(s[0]);
      var b := SeqBound(s[1..]);
      if a < b then b else a
  }
}
