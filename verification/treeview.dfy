/** The simulation-parameters tree: elements linked by parent references and
    ordered child lists, and the parameter dictionary the rows fill in.
    Elements are objects compared by reference, so each is named by an id
    and the tree is a map from ids to nodes. */
module Treeview {
  import opened Wrappers
  import Dict

  /** An element's links: its parent (null when absent) and its children in order. */
  datatype Node = Node(parent: Option<nat>, children: seq<nat>)

  type Forest = map<nat, Node>

  predicate NoDuplicates(s: seq<nat>)
  {
    forall i, j :: 0 <= i < j < |s| ==> s[i] != s[j]
  }

  /** The first position of `x` in `s`. */
  function IndexOf(s: seq<nat>, x: nat): (i: nat)
    requires x in s
    ensures i < |s| && s[i] == x && x !in s[..i]
  {
    if s[0] == x then 0
    else
      var j := IndexOf(s[1..], x);
      assert s[1..][..j] == s[1..j + 1];
      1 + j
  }

  /** List.Remove: drops the first occurrence of `x`, if any. */
  function RemoveFirst(s: seq<nat>, x: nat): (r: seq<nat>)
    ensures x !in s ==> r == s
    ensures x in s ==> r == s[..IndexOf(s, x)] + s[IndexOf(s, x) + 1..]
  {
    if x in s then s[..IndexOf(s, x)] + s[IndexOf(s, x) + 1..] else s
  }

  /** Removing `x` takes away one copy of it and nothing else. */
  lemma RemoveFirstMultiset(s: seq<nat>, x: nat)
    ensures multiset(RemoveFirst(s, x)) == multiset(s) - multiset{x}
  {
    if x in s {
      var i := IndexOf(s, x);
      assert s == s[..i] + [x] + s[i + 1..];
    } else {
      assert x !in multiset(s);
    }
  }

  /** Position `k` of the shortened list holds the element at `k`, or the
      one after it once past the removed position. */
  lemma RemoveFirstAt(s: seq<nat>, x: nat, k: nat)
    requires x in s && k < |s| - 1
    ensures |RemoveFirst(s, x)| == |s| - 1
    ensures RemoveFirst(s, x)[k] == s[if k < IndexOf(s, x) then k else k + 1]
  {
    var i := IndexOf(s, x);
    var a, b := s[..i], s[i + 1..];
    assert RemoveFirst(s, x) == a + b;
    if k < i {
      assert (a + b)[k] == a[k];
    } else {
      assert (a + b)[k] == b[k - i];
    }
  }

  /** Without duplicates, removing `x` leaves exactly the other elements. */
  lemma RemoveFirstMembers(s: seq<nat>, x: nat)
    requires NoDuplicates(s)
    ensures forall y :: y in RemoveFirst(s, x) <==> y in s && y != x
  {
    if x in s {
      var i := IndexOf(s, x);
      var r := RemoveFirst(s, x);
      forall y ensures y in r <==> y in s && y != x {
        if y in r {
          var k :| 0 <= k < |r| && r[k] == y;
          RemoveFirstAt(s, x, k);
          var k' := if k < i then k else k + 1;
          assert s[k'] == y && k' != i;
        }
        if y in s && y != x {
          var k :| 0 <= k < |s| && s[k] == y;
          if k < i {
            RemoveFirstAt(s, x, k);
          } else {
            RemoveFirstAt(s, x, k - 1);
          }
        }
      }
    }
  }

  /** Removing keeps a list free of duplicates, in the same relative order. */
  lemma RemoveFirstNoDuplicates(s: seq<nat>, x: nat)
    requires NoDuplicates(s)
    ensures NoDuplicates(RemoveFirst(s, x))
  {
    if x in s {
      var r := RemoveFirst(s, x);
      forall a, b | 0 <= a < b < |r| ensures r[a] != r[b] {
        RemoveFirstAt(s, x, a);
        RemoveFirstAt(s, x, b);
      }
    }
  }

  /** Every id a node mentions is in the forest. */
  ghost predicate Closed(f: Forest)
  {
    && (forall x :: x in f && f[x].parent.Some? ==> f[x].parent.value in f)
    && (forall x, i :: x in f && 0 <= i < |f[x].children| ==> f[x].children[i] in f)
  }

  /** The links agree both ways: x records y as its parent exactly when y
      lists x among its children. */
  ghost predicate Mutual(f: Forest)
  {
    forall x, y :: x in f && y in f ==> (f[x].parent == Some(y) <==> x in f[y].children)
  }

  /** No child list repeats an element. */
  ghost predicate Distinct(f: Forest)
  {
    forall x :: x in f ==> NoDuplicates(f[x].children)
  }

  ghost predicate Consistent(f: Forest)
  {
    Closed(f) && Mutual(f) && Distinct(f)
  }

  /** `p.RemoveChild(c)`: when c is among p's children it is dropped from
      the list and its parent cleared; otherwise nothing happens. */
  function RemoveChild(f: Forest, p: nat, c: nat): (r: Forest)
    requires p in f && c in f
    ensures r.Keys == f.Keys
    ensures c !in f[p].children ==> r == f
    ensures c in f[p].children ==>
      && r[p].children == RemoveFirst(f[p].children, c)
      && r[c].parent == None
      && (p != c ==> r[p].parent == f[p].parent)
      && (p != c ==> r[c].children == f[c].children)
      && (forall x :: x in f && x != p && x != c ==> r[x] == f[x])
  {
    if c in f[p].children then
      var f1 := f[p := f[p].(children := RemoveFirst(f[p].children, c))];
      f1[c := f1[c].(parent := None)]
    else f
  }

  /** Removing a child keeps every mentioned id inside the forest. */
  lemma RemoveChildClosed(f: Forest, p: nat, c: nat)
    requires p in f && c in f && Closed(f)
    ensures Closed(RemoveChild(f, p, c))
  {
    var r := RemoveChild(f, p, c);
    if c in f[p].children {
      forall x, i | x in r && 0 <= i < |r[x].children| ensures r[x].children[i] in r {
        if x == p {
          RemoveFirstAt(f[p].children, c, i);
        } else {
          assert r[x].children[i] == f[x].children[i];
        }
      }
    }
  }

  /** Removing a child from its recorded parent keeps the two-way links. */
  lemma RemoveChildMutual(f: Forest, p: nat, c: nat)
    requires p in f && c in f && Mutual(f) && Distinct(f) && f[c].parent == Some(p)
    ensures Mutual(RemoveChild(f, p, c))
  {
    var r := RemoveChild(f, p, c);
    RemoveFirstMembers(f[p].children, c);
    forall x, y | x in r && y in r ensures r[x].parent == Some(y) <==> x in r[y].children {
      if x != c && y == p {
        assert x in r[p].children <==> x in f[p].children;
      }
    }
  }

  /** Removing a child from its recorded parent keeps the links consistent,
      and afterwards the element is under no parent at all. */
  lemma RemoveChildConsistent(f: Forest, p: nat, c: nat)
    requires p in f && c in f && Consistent(f) && f[c].parent == Some(p)
    ensures Consistent(RemoveChild(f, p, c))
    ensures forall y :: y in f ==> c !in RemoveChild(f, p, c)[y].children
  {
    var r := RemoveChild(f, p, c);
    RemoveFirstMembers(f[p].children, c);
    RemoveFirstNoDuplicates(f[p].children, c);
    forall y | y in f ensures c !in r[y].children {
      if y != p {
        assert f[c].parent != Some(y);
      }
    }
    RemoveChildClosed(f, p, c);
    RemoveChildMutual(f, p, c);
  }

  /** The first step of AddChild: c leaves its recorded parent, if any. */
  function Detach(f: Forest, c: nat): Forest
    requires c in f
    requires f[c].parent.Some? ==> f[c].parent.value in f
  {
    if f[c].parent.Some? then RemoveChild(f, f[c].parent.value, c) else f
  }

  /** The second step of AddChild: c goes to the end of p's children and
      records p as its parent. */
  function Attach(f: Forest, p: nat, c: nat): Forest
    requires p in f && c in f
  {
    var f1 := f[p := f[p].(children := f[p].children + [c])];
    f1[c := f1[c].(parent := Some(p))]
  }

  /** `p.AddChild(c)`: c first leaves its current parent (when that parent
      lists it), then goes to the end of p's children with p as its parent. */
  function AddChild(f: Forest, p: nat, c: nat): (r: Forest)
    requires p in f && c in f
    requires f[c].parent.Some? ==> f[c].parent.value in f
    ensures r.Keys == f.Keys
    ensures r[c].parent == Some(p)
    ensures |r[p].children| > 0 && r[p].children[|r[p].children| - 1] == c
    ensures r[p].children == (if f[c].parent == Some(p) then RemoveFirst(f[p].children, c) else f[p].children) + [c]
  {
    Attach(Detach(f, c), p, c)
  }

  /** In a consistent forest, detaching leaves c listed nowhere. */
  lemma DetachConsistent(f: Forest, c: nat)
    requires c in f && Consistent(f)
    ensures Consistent(Detach(f, c))
    ensures forall y :: y in f ==> c !in Detach(f, c)[y].children
    ensures Detach(f, c)[c].parent == None
    ensures forall y :: y in f ==>
      Detach(f, c)[y].children == (if f[c].parent == Some(y) then RemoveFirst(f[y].children, c) else f[y].children)
  {
    if f[c].parent.Some? {
      RemoveChildConsistent(f, f[c].parent.value, c);
    } else {
      forall y | y in f ensures c !in f[y].children {
        assert f[c].parent != Some(y);
      }
    }
  }

  /** What Attach changes: p's list gains c at the end, c's parent becomes
      p, and nothing else moves. */
  lemma AttachFrame(f: Forest, p: nat, c: nat)
    requires p in f && c in f
    ensures Attach(f, p, c).Keys == f.Keys
    ensures Attach(f, p, c)[p].children == f[p].children + [c]
    ensures Attach(f, p, c)[c].parent == Some(p)
    ensures forall y :: y in f && y != p ==> Attach(f, p, c)[y].children == f[y].children
    ensures forall x :: x in f && x != c ==> Attach(f, p, c)[x].parent == f[x].parent
  {
  }

  lemma AttachClosed(f: Forest, p: nat, c: nat)
    requires p in f && c in f && Closed(f)
    ensures Closed(Attach(f, p, c))
  {
    var r := Attach(f, p, c);
    AttachFrame(f, p, c);
    forall x, i | x in r && 0 <= i < |r[x].children| ensures r[x].children[i] in r {
      if x == p && i < |f[p].children| {
        assert r[x].children[i] == f[p].children[i];
      } else if x != p {
        assert r[x].children[i] == f[x].children[i];
      }
    }
  }

  lemma AttachMutual(f: Forest, p: nat, c: nat)
    requires p in f && c in f && Mutual(f)
    requires forall y :: y in f ==> c !in f[y].children
    ensures Mutual(Attach(f, p, c))
  {
    var r := Attach(f, p, c);
    AttachFrame(f, p, c);
    forall x, y | x in r && y in r ensures r[x].parent == Some(y) <==> x in r[y].children {
      if x != c && y == p {
        assert x in r[p].children <==> x in f[p].children;
      }
    }
  }

  lemma AttachDistinct(f: Forest, p: nat, c: nat)
    requires p in f && c in f && Distinct(f)
    requires c !in f[p].children
    ensures Distinct(Attach(f, p, c))
  {
    AttachFrame(f, p, c);
  }

  /** In a consistent forest, AddChild keeps the links consistent: c ends up
      listed under p and under no other element, and every other child list
      only loses c. */
  lemma AddChildConsistent(f: Forest, p: nat, c: nat)
    requires p in f && c in f && Consistent(f)
    ensures Consistent(AddChild(f, p, c))
    ensures forall y :: y in f && y != p ==> c !in AddChild(f, p, c)[y].children
    ensures forall y :: y in f && y != p ==>
      AddChild(f, p, c)[y].children == (if f[c].parent == Some(y) then RemoveFirst(f[y].children, c) else f[y].children)
  {
    DetachConsistent(f, c);
    var f1 := Detach(f, c);
    AttachClosed(f1, p, c);
    AttachMutual(f1, p, c);
    AttachDistinct(f1, p, c);
    AttachFrame(f1, p, c);
  }

  /** RemoveChild of a non-child changes nothing. */
  lemma RemoveNonChild(f: Forest, p: nat, c: nat)
    requires p in f && c in f && c !in f[p].children
    ensures RemoveChild(f, p, c) == f
  {
  }

  /** The `parameterDict` upsert of one row: the key is written when absent
      or when its (type, values) pair differs, so afterwards it holds the
      row's pair. */
  function Upsert(d: Dict.Dict<string, (string, string)>, key: string, typeName: string, values: string): (r: Dict.Dict<string, (string, string)>)
    ensures Dict.Get(r, key) == Some((typeName, values))
    ensures forall k :: k != key ==> Dict.Get(r, k) == Dict.Get(d, k)
    ensures Dict.HasKey(d, key) ==> Dict.Keys(r) == Dict.Keys(d)
    ensures !Dict.HasKey(d, key) ==> Dict.Keys(r) == Dict.Keys(d) + [key]
    ensures Dict.Wf(d) ==> Dict.Wf(r)
  {
    match Dict.Get(d, key)
    case None => Dict.Set(d, key, (typeName, values))
    case Some(pair) =>
      if pair.0 != typeName || pair.1 != values then Dict.Set(d, key, (typeName, values)) else d
  }

  /** Upserting what is already there changes nothing. */
  lemma UpsertIdempotent(d: Dict.Dict<string, (string, string)>, key: string, typeName: string, values: string)
    ensures Upsert(Upsert(d, key, typeName, values), key, typeName, values) == Upsert(d, key, typeName, values)
  {
  }

  /** A row of the parameters table drawn over its visible columns: column 3
      is the values text field (`edited` is what it returns), and after each
      column the row's key, type and current values are upserted. Returns the
      dictionary and the element's values afterwards. */
  function RowGui(d: Dict.Dict<string, (string, string)>, key: string, typeName: string, values: string, columns: seq<int>, edited: string): (r: (Dict.Dict<string, (string, string)>, string))
    ensures r.1 == (if 3 in columns then edited else values)
    ensures |columns| == 0 ==> r.0 == d
    ensures |columns| > 0 ==> Dict.Get(r.0, key) == Some((typeName, r.1))
    ensures forall k :: k != key ==> Dict.Get(r.0, k) == Dict.Get(d, k)
    ensures Dict.Wf(d) ==> Dict.Wf(r.0)
    decreases |columns|
  {
    if |columns| == 0 then (d, values)
    else
      var v := if columns[0] == 3 then edited else values;
      var rest := RowGui(Upsert(d, key, typeName, v), key, typeName, v, columns[1..], edited);
      assert 3 in columns <==> columns[0] == 3 || 3 in columns[1..];
      rest
  }
}
