/**
 * `cloneParsedSvg`: a deep copy of the parsed document's object graph. The
 * graph may share objects and contain cycles (an element's `parentNode`
 * points back up), so every original object is recorded in the `clones` memo
 * before any of its children is copied, and an object met again yields its
 * recorded copy.
 *
 * The JavaScript heap is modelled explicitly: objects live at addresses of a
 * `map<Address, Obj>`, a reference is an address, and allocating an object
 * takes an address not used before.
 */
module SvgClone {
  import opened Wrappers

  type Address = nat

  /**
   * What the constructor check of `clone` distinguishes: svgo's element class
   * (JSAPI), its class-list and style-declaration helpers, plain objects,
   * arrays, maps, sets, and any other constructor.
   */
  datatype Kind =
    | Element
    | ClassList
    | StyleDeclaration
    | PlainObject
    | ArrayObject
    | MapObject
    | SetObject
    | OtherConstructor(name: string)

  /** A JavaScript value: anything whose `typeof` is not 'object', `null`, or a reference to an object. */
  datatype Value = Atom(text: string) | Null | Ref(addr: Address)

  /**
   * One JavaScript object. `props` are its own enumerable properties in
   * `Object.keys` order; `parentNode` is the non-enumerable parent link that
   * only elements carry; `entries` and `members` are the contents of a Map
   * or a Set, in iteration order.
   */
  datatype Obj = Obj(
    kind: Kind,
    parentNode: Option<Address>,
    props: seq<(string, Value)>,
    entries: seq<(Value, Value)>,
    members: seq<Value>)

  /** A freshly constructed object: `new JSAPI({}, parentNode)`, `new obj.constructor()`, `new Map()`, `new Set()`. */
  function Fresh(kind: Kind, parentNode: Option<Address>): Obj
  {
    Obj(kind, parentNode, [], [], [])
  }

  predicate HasKey<K(==), V>(ps: seq<(K, V)>, k: K)
  {
    exists i :: 0 <= i < |ps| && ps[i].0 == k
  }

  /**
   * `target[key] = v` on a property list, and `map.set(key, v)` on a Map: a
   * new key is appended, and an existing key keeps its place and takes the
   * new value.
   */
  function Put<K(==), V>(ps: seq<(K, V)>, k: K, v: V): (r: seq<(K, V)>)
    ensures !HasKey(ps, k) ==> r == ps + [(k, v)]
    ensures HasKey(ps, k) ==> |r| == |ps| && forall i {:trigger r[i]} :: 0 <= i < |ps| ==>
      r[i] == if ps[i].0 == k && !HasKey(ps[..i], k) then (k, v) else ps[i]
    decreases |ps|
  {
    if ps == [] then [(k, v)]
    else if ps[0].0 == k then
      assert !HasKey(ps[..0], k);
      assert forall i :: 0 < i < |ps| ==> HasKey(ps[..i], k) by {
        forall i | 0 < i < |ps| ensures HasKey(ps[..i], k) {
          assert ps[..i][0].0 == k;
        }
      }
      [(k, v)] + ps[1..]
    else
      var r := [ps[0]] + Put(ps[1..], k, v);
      assert HasKey(ps, k) ==> HasKey(ps[1..], k) by {
        if HasKey(ps, k) {
          var i :| 0 <= i < |ps| && ps[i].0 == k;
          assert ps[1..][i - 1].0 == k;
        }
      }
      assert !HasKey(ps, k) ==> !HasKey(ps[1..], k) by {
        if HasKey(ps[1..], k) {
          var i :| 0 <= i < |ps[1..]| && ps[1..][i].0 == k;
          assert ps[i + 1].0 == k;
        }
      }
      assert forall i :: 0 < i < |ps| ==> (HasKey(ps[..i], k) <==> HasKey(ps[1..][..i - 1], k)) by {
        forall i | 0 < i < |ps| ensures HasKey(ps[..i], k) <==> HasKey(ps[1..][..i - 1], k) {
          if HasKey(ps[..i], k) {
            var j :| 0 <= j < i && ps[..i][j].0 == k;
            assert ps[1..][..i - 1][j - 1].0 == k;
          }
          if HasKey(ps[1..][..i - 1], k) {
            var j :| 0 <= j < i - 1 && ps[1..][..i - 1][j].0 == k;
            assert ps[..i][j + 1].0 == k;
          }
        }
      }
      r
  }

  /** With distinct keys, as in every JavaScript object and Map, exactly the pair at `k` takes the new value. */
  lemma PutDistinct<K, V>(ps: seq<(K, V)>, k: K, v: V)
    requires forall i, j :: 0 <= i < j < |ps| ==> ps[i].0 != ps[j].0
    requires HasKey(ps, k)
    ensures |Put(ps, k, v)| == |ps|
    ensures forall i :: 0 <= i < |ps| ==> Put(ps, k, v)[i] == if ps[i].0 == k then (k, v) else ps[i]
  {
    assert forall i, j :: 0 <= j < i < |ps| && ps[i].0 == k ==> ps[..i][j].0 != k;
  }

  /** `set.add(v)`: a value already present is not added again. */
  function Add<T(==)>(xs: seq<T>, x: T): (r: seq<T>)
    ensures x in xs ==> r == xs
    ensures x !in xs ==> r == xs + [x]
  {
    if x in xs then xs else xs + [x]
  }

  /** `m2` keeps every entry of `m1`. */
  ghost predicate Extends<K, V>(m1: map<K, V>, m2: map<K, V>)
  {
    forall a :: a in m1 ==> a in m2 && m2[a] == m1[a]
  }

  // ---------------------------------------------------------------------
  // The original document

  ghost predicate ValueIn(v: Value, doc: map<Address, Obj>)
  {
    v.Ref? ==> v.addr in doc
  }

  /** Every object `o` refers to is in `doc`. */
  ghost predicate LinksIn(o: Obj, doc: map<Address, Obj>)
  {
    && (o.parentNode.Some? ==> o.parentNode.value in doc)
    && (forall i :: 0 <= i < |o.props| ==> ValueIn(o.props[i].1, doc))
    && (forall i :: 0 <= i < |o.entries| ==> ValueIn(o.entries[i].0, doc) && ValueIn(o.entries[i].1, doc))
    && (forall i :: 0 <= i < |o.members| ==> ValueIn(o.members[i], doc))
  }

  /** Property names, Map keys and Set members are each distinct, as JavaScript guarantees. */
  ghost predicate WellFormed(o: Obj)
  {
    && (forall i, j :: 0 <= i < j < |o.props| ==> o.props[i].0 != o.props[j].0)
    && (forall i, j :: 0 <= i < j < |o.entries| ==> o.entries[i].0 != o.entries[j].0)
    && (forall i, j :: 0 <= i < j < |o.members| ==> o.members[i] != o.members[j])
  }

  /** The object at `a`, if there is one, is well formed and refers only to objects of `doc`. */
  ghost predicate ClosedAt(doc: map<Address, Obj>, a: Address)
  {
    a in doc ==> LinksIn(doc[a], doc) && WellFormed(doc[a])
  }

  /** `doc` holds every object its objects refer to, each well formed. */
  ghost predicate ClosedDocument(doc: map<Address, Obj>)
  {
    forall a :: ClosedAt(doc, a)
  }

  /** A parsed document: its objects keyed by address, closed under references. */
  type Document = doc: map<Address, Obj> | ClosedDocument(doc) witness map[]

  ghost predicate InProps(ps: seq<(string, Value)>, x: Address)
  {
    exists i :: 0 <= i < |ps| && ps[i].1 == Ref(x)
  }

  ghost predicate InEntries(es: seq<(Value, Value)>, x: Address)
  {
    exists i :: 0 <= i < |es| && (es[i].0 == Ref(x) || es[i].1 == Ref(x))
  }

  /** Cloning `o` goes on to clone the object at `x` directly. */
  ghost predicate Links(o: Obj, x: Address)
  {
    match o.kind
    case Element => o.parentNode == Some(x) || InProps(o.props, x)
    case MapObject => InEntries(o.entries, x)
    case SetObject => Ref(x) in o.members
    case OtherConstructor(_) => false
    case _ => InProps(o.props, x)
  }

  /** A chain of objects of `doc`, each cloned on the way from its predecessor. */
  ghost predicate IsPath(doc: map<Address, Obj>, p: seq<Address>)
  {
    && |p| > 0
    && (forall i :: 0 <= i < |p| ==> p[i] in doc)
    && (forall i :: 0 <= i < |p| - 1 ==> Links(doc[p[i]], p[i + 1]))
  }

  /** `p` ends at an object of an unsupported kind: cloning `p[0]` meets that object. */
  ghost predicate FailsThrough(doc: map<Address, Obj>, p: seq<Address>)
  {
    IsPath(doc, p) && doc[p[|p| - 1]].kind.OtherConstructor?
  }

  /** Cloning the object at `a` meets an object of an unsupported kind. */
  ghost predicate ReachesUnsupported(doc: map<Address, Obj>, a: Address)
  {
    exists p :: FailsThrough(doc, p) && p[0] == a
  }

  // ---------------------------------------------------------------------
  // What a copy is

  /** `w` is the copy of `v` under the memo `m`: objects map to their clones, anything else to itself. */
  ghost predicate Corresponds(m: map<Address, Address>, v: Value, w: Value)
  {
    if v.Ref? then v.addr in m && w == Ref(m[v.addr]) else w == v
  }

  ghost predicate ParentCorresponds(m: map<Address, Address>, p: Option<Address>, q: Option<Address>)
  {
    if p.Some? then p.value in m && q == Some(m[p.value]) else q == None
  }

  ghost predicate PropsCorrespond(m: map<Address, Address>, ps: seq<(string, Value)>, qs: seq<(string, Value)>)
  {
    |ps| == |qs| && forall i :: 0 <= i < |ps| ==> qs[i].0 == ps[i].0 && Corresponds(m, ps[i].1, qs[i].1)
  }

  ghost predicate EntriesCorrespond(m: map<Address, Address>, es: seq<(Value, Value)>, fs: seq<(Value, Value)>)
  {
    |es| == |fs| && forall i :: 0 <= i < |es| ==> Corresponds(m, es[i].0, fs[i].0) && Corresponds(m, es[i].1, fs[i].1)
  }

  ghost predicate MembersCorrespond(m: map<Address, Address>, xs: seq<Value>, ys: seq<Value>)
  {
    |xs| == |ys| && forall i :: 0 <= i < |xs| ==> Corresponds(m, xs[i], ys[i])
  }

  /**
   * `c` is a finished copy of `o`: same kind, and the part of `o` that
   * `clone` copies for that kind is copied slot by slot through `m`.
   */
  ghost predicate Mirrors(m: map<Address, Address>, o: Obj, c: Obj)
  {
    && c.kind == o.kind
    && match o.kind
       case Element =>
         ParentCorresponds(m, o.parentNode, c.parentNode) && PropsCorrespond(m, o.props, c.props)
         && c.entries == [] && c.members == []
       case MapObject =>
         c.parentNode == None && c.props == [] && EntriesCorrespond(m, o.entries, c.entries) && c.members == []
       case SetObject =>
         c.parentNode == None && c.props == [] && c.entries == [] && MembersCorrespond(m, o.members, c.members)
       case OtherConstructor(_) => false
       case _ =>
         c.parentNode == None && PropsCorrespond(m, o.props, c.props) && c.entries == [] && c.members == []
  }

  /** Distinct originals have distinct clones. */
  ghost predicate Injective(m: map<Address, Address>)
  {
    forall a, b :: a in m && b in m && a != b ==> m[a] != m[b]
  }

  /**
   * `m` maps objects of `doc` one to one onto objects of `heap` outside
   * `doc`, each a finished copy of its original.
   */
  ghost predicate IsDeepCopy(doc: map<Address, Obj>, heap: map<Address, Obj>, m: map<Address, Address>)
  {
    && m.Keys <= doc.Keys
    && Injective(m)
    && (forall a :: a in m ==> m[a] in heap && m[a] !in doc && Mirrors(m, doc[a], heap[m[a]]))
  }

  // ---------------------------------------------------------------------
  // Lemmas about copies

  /** Under a one-to-one memo, values have equal copies exactly when they are equal. */
  lemma CorrespondsInjective(m: map<Address, Address>, v1: Value, w1: Value, v2: Value, w2: Value)
    requires Injective(m) && Corresponds(m, v1, w1) && Corresponds(m, v2, w2)
    ensures w1 == w2 <==> v1 == v2
  {
  }

  lemma {:induction false} PropsGrow(m1: map<Address, Address>, m2: map<Address, Address>, ps: seq<(string, Value)>, qs: seq<(string, Value)>)
    requires Extends(m1, m2) && PropsCorrespond(m1, ps, qs)
    ensures PropsCorrespond(m2, ps, qs)
  {
    forall i | 0 <= i < |ps| ensures Corresponds(m2, ps[i].1, qs[i].1) {
      assert Corresponds(m1, ps[i].1, qs[i].1);
    }
  }

  lemma {:induction false} EntriesGrow(m1: map<Address, Address>, m2: map<Address, Address>, es: seq<(Value, Value)>, fs: seq<(Value, Value)>)
    requires Extends(m1, m2) && EntriesCorrespond(m1, es, fs)
    ensures EntriesCorrespond(m2, es, fs)
  {
    forall i | 0 <= i < |es| ensures Corresponds(m2, es[i].0, fs[i].0) && Corresponds(m2, es[i].1, fs[i].1) {
      assert Corresponds(m1, es[i].0, fs[i].0) && Corresponds(m1, es[i].1, fs[i].1);
    }
  }

  lemma {:induction false} MembersGrow(m1: map<Address, Address>, m2: map<Address, Address>, xs: seq<Value>, ys: seq<Value>)
    requires Extends(m1, m2) && MembersCorrespond(m1, xs, ys)
    ensures MembersCorrespond(m2, xs, ys)
  {
    forall i | 0 <= i < |xs| ensures Corresponds(m2, xs[i], ys[i]) {
      assert Corresponds(m1, xs[i], ys[i]);
    }
  }

  /** A finished copy stays finished when the memo only gains entries. */
  lemma {:induction false} MirrorsGrow(m1: map<Address, Address>, m2: map<Address, Address>, o: Obj, c: Obj)
    requires Extends(m1, m2) && Mirrors(m1, o, c)
    ensures Mirrors(m2, o, c)
  {
    match o.kind
    case Element => PropsGrow(m1, m2, o.props, c.props);
    case MapObject => EntriesGrow(m1, m2, o.entries, c.entries);
    case SetObject => MembersGrow(m1, m2, o.members, c.members);
    case OtherConstructor(_) =>
    case _ => PropsGrow(m1, m2, o.props, c.props);
  }

  /**
   * Copying one more property: its name is new (property names are
   * distinct), so the assignment appends it.
   */
  lemma PropsSnoc(m: map<Address, Address>, ps: seq<(string, Value)>, i: nat, qs: seq<(string, Value)>, w: Value)
    requires i < |ps| && (forall a, b :: 0 <= a < b < |ps| ==> ps[a].0 != ps[b].0)
    requires PropsCorrespond(m, ps[..i], qs) && Corresponds(m, ps[i].1, w)
    ensures !HasKey(qs, ps[i].0)
    ensures PropsCorrespond(m, ps[..i + 1], Put(qs, ps[i].0, w))
  {
    forall j | 0 <= j < |qs| ensures qs[j].0 != ps[i].0 {
      assert qs[j].0 == ps[..i][j].0 == ps[j].0;
    }
    assert forall a :: 0 <= a < i ==> ps[..i + 1][a] == ps[..i][a];
  }

  /** Copying one more Map entry: its copied key is new because copying is one-to-one. */
  lemma EntriesSnoc(m: map<Address, Address>, es: seq<(Value, Value)>, i: nat, fs: seq<(Value, Value)>, k: Value, w: Value)
    requires Injective(m)
    requires i < |es| && (forall a, b :: 0 <= a < b < |es| ==> es[a].0 != es[b].0)
    requires EntriesCorrespond(m, es[..i], fs) && Corresponds(m, es[i].0, k) && Corresponds(m, es[i].1, w)
    ensures !HasKey(fs, k)
    ensures EntriesCorrespond(m, es[..i + 1], Put(fs, k, w))
  {
    forall j | 0 <= j < |fs| ensures fs[j].0 != k {
      assert es[..i][j].0 == es[j].0;
      assert Corresponds(m, es[j].0, fs[j].0);
      CorrespondsInjective(m, es[j].0, fs[j].0, es[i].0, k);
    }
    assert forall a :: 0 <= a < i ==> es[..i + 1][a] == es[..i][a];
  }

  /** Copying one more Set member: its copy is new because copying is one-to-one. */
  lemma MembersSnoc(m: map<Address, Address>, xs: seq<Value>, i: nat, ys: seq<Value>, w: Value)
    requires Injective(m)
    requires i < |xs| && (forall a, b :: 0 <= a < b < |xs| ==> xs[a] != xs[b])
    requires MembersCorrespond(m, xs[..i], ys) && Corresponds(m, xs[i], w)
    ensures w !in ys
    ensures MembersCorrespond(m, xs[..i + 1], Add(ys, w))
  {
    forall j | 0 <= j < |ys| ensures ys[j] != w {
      assert xs[..i][j] == xs[j];
      assert Corresponds(m, xs[j], ys[j]);
      CorrespondsInjective(m, xs[j], ys[j], xs[i], w);
    }
    assert forall a :: 0 <= a < i ==> xs[..i + 1][a] == xs[..i][a];
  }

  /** Every object a finished copy's original links to is in the memo. */
  lemma {:induction false} MirrorsCoversLinks(m: map<Address, Address>, o: Obj, c: Obj, x: Address)
    requires Mirrors(m, o, c) && Links(o, x)
    ensures x in m
  {
    match o.kind
    case Element =>
      if o.parentNode != Some(x) {
        var i :| 0 <= i < |o.props| && o.props[i].1 == Ref(x);
        assert Corresponds(m, o.props[i].1, c.props[i].1);
      }
    case MapObject =>
      var i :| 0 <= i < |o.entries| && (o.entries[i].0 == Ref(x) || o.entries[i].1 == Ref(x));
      assert Corresponds(m, o.entries[i].0, c.entries[i].0) && Corresponds(m, o.entries[i].1, c.entries[i].1);
    case SetObject =>
      var i :| 0 <= i < |o.members| && o.members[i] == Ref(x);
      assert Corresponds(m, o.members[i], c.members[i]);
    case OtherConstructor(_) =>
    case _ =>
      var i :| 0 <= i < |o.props| && o.props[i].1 == Ref(x);
      assert Corresponds(m, o.props[i].1, c.props[i].1);
  }

  /**
   * A complete copy leaves nothing out: every object on a path from a copied
   * object is copied too, so none of them is of an unsupported kind.
   */
  lemma {:induction false} CopyCoversPaths(doc: map<Address, Obj>, heap: map<Address, Obj>, m: map<Address, Address>, p: seq<Address>)
    requires IsDeepCopy(doc, heap, m) && IsPath(doc, p) && p[0] in m
    ensures forall i :: 0 <= i < |p| ==> p[i] in m
    ensures !FailsThrough(doc, p)
    decreases |p|
  {
    if |p| > 1 {
      MirrorsCoversLinks(m, doc[p[0]], heap[m[p[0]]], p[1]);
      assert IsPath(doc, p[1..]);
      CopyCoversPaths(doc, heap, m, p[1..]);
      assert forall i :: 1 <= i < |p| ==> p[i] == p[1..][i - 1];
    }
    assert Mirrors(m, doc[p[|p| - 1]], heap[m[p[|p| - 1]]]);
  }

  /** An object that `clone` reaches from the object at `a` extends a path that starts at `a`. */
  lemma PathPrepend(doc: map<Address, Obj>, a: Address, p: seq<Address>)
    requires a in doc && FailsThrough(doc, p) && Links(doc[a], p[0])
    ensures ReachesUnsupported(doc, a)
  {
    var q := [a] + p;
    assert forall i :: 1 <= i < |q| ==> q[i] == p[i - 1];
    assert FailsThrough(doc, q) && q[0] == a;
  }

  // ---------------------------------------------------------------------
  // The state of a traversal

  /**
   * The document is closed and kept as it is in the heap; the heap holds the
   * document and the copies and nothing at or above `next`; the memo pairs
   * document objects one to one with same-kind copies.
   */
  ghost predicate Consistent(doc: Document, heap: map<Address, Obj>, next: Address, clones: map<Address, Address>)
  {
    && Extends(doc, heap)
    && (forall a :: a in heap ==> a < next)
    && clones.Keys <= doc.Keys
    && (forall a :: a in clones ==> clones[a] in heap && clones[a] !in doc && heap[clones[a]].kind == doc[a].kind)
    && Injective(clones)
  }

  /** Unless it is still on `stack`, being filled in, the memo entry of `a` (if any) is a finished copy. */
  ghost predicate SettledAt(doc: map<Address, Obj>, heap: map<Address, Obj>, clones: map<Address, Address>, stack: set<Address>, a: Address)
  {
    a in clones && a !in stack ==> a in doc && clones[a] in heap && Mirrors(clones, doc[a], heap[clones[a]])
  }

  /** Every memo entry except those of `stack`, the objects still being filled in, is a finished copy. */
  ghost predicate SettledIn(doc: map<Address, Obj>, heap: map<Address, Obj>, clones: map<Address, Address>, stack: set<Address>)
  {
    forall a :: SettledAt(doc, heap, clones, stack, a)
  }

  /** Every object of `h0` but the one at `t` is still in `h1`, unchanged. */
  ghost predicate KeepsAllBut(h0: map<Address, Obj>, h1: map<Address, Obj>, t: Address)
  {
    forall x :: x in h0 && x != t ==> x in h1 && h1[x] == h0[x]
  }

  /** Filling in the copy of an object still on the stack disturbs no finished copy. */
  lemma UpdateCopy(doc: Document, heap: map<Address, Obj>, next: Address, clones: map<Address, Address>,
                   stack: set<Address>, a: Address, c: Obj)
    requires Consistent(doc, heap, next, clones) && SettledIn(doc, heap, clones, stack)
    requires a in stack && a in clones && c.kind == doc[a].kind
    ensures Consistent(doc, heap[clones[a] := c], next, clones)
    ensures SettledIn(doc, heap[clones[a] := c], clones, stack)
  {
    var h := heap[clones[a] := c];
    forall x ensures SettledAt(doc, h, clones, stack, x) {
      assert SettledAt(doc, heap, clones, stack, x);
      if x in clones && x !in stack {
        assert clones[x] != clones[a];
      }
    }
  }

  /** Recording a fresh copy for `a`: finished copies stay finished under the larger memo. */
  lemma Record(doc: Document, heap: map<Address, Obj>, next: Address, clones: map<Address, Address>,
               stack: set<Address>, a: Address, c: Obj)
    requires Consistent(doc, heap, next, clones) && SettledIn(doc, heap, clones, stack)
    requires a in doc && a !in clones && c.kind == doc[a].kind
    ensures Consistent(doc, heap[next := c], next + 1, clones[a := next])
    ensures SettledIn(doc, heap[next := c], clones[a := next], stack + {a})
  {
    var h, m := heap[next := c], clones[a := next];
    assert next !in heap;
    forall x ensures SettledAt(doc, h, m, stack + {a}, x) {
      assert SettledAt(doc, heap, clones, stack, x);
      if x in m && x !in stack + {a} {
        assert m[x] == clones[x] != next;
        MirrorsGrow(clones, m, doc[x], heap[clones[x]]);
      }
    }
  }

  /** Once the copy `c` of `a` is finished, `a` leaves the stack. */
  lemma Finish(doc: map<Address, Obj>, heap: map<Address, Obj>, clones: map<Address, Address>, stack: set<Address>, a: Address, c: Address)
    requires SettledIn(doc, heap, clones, stack + {a})
    requires a in doc && a in clones && clones[a] == c && c in heap && Mirrors(clones, doc[a], heap[c])
    ensures SettledIn(doc, heap, clones, stack)
  {
    forall x ensures SettledAt(doc, heap, clones, stack, x) {
      assert SettledAt(doc, heap, clones, stack + {a}, x);
    }
  }

  /** Allocating at a free address and then changing only the new object keeps every old object. */
  lemma AllocationKeeps(h0: map<Address, Obj>, h1: map<Address, Obj>, c: Address, o: Obj)
    requires c !in h0 && KeepsAllBut(h0[c := o], h1, c)
    ensures Extends(h0, h1)
  {
    forall x | x in h0 ensures x in h1 && h1[x] == h0[x] {
      assert x != c && x in h0[c := o];
    }
  }

  /** A heap that only gained objects keeps all but `t`, and still does once the object at `t` changes. */
  lemma KeepsAfterUpdate(h0: map<Address, Obj>, h1: map<Address, Obj>, t: Address, o: Obj)
    requires Extends(h0, h1)
    ensures KeepsAllBut(h0, h1, t) && KeepsAllBut(h0, h1[t := o], t)
  {
  }

  lemma KeepsTransitive(h0: map<Address, Obj>, h1: map<Address, Obj>, h2: map<Address, Obj>, t: Address)
    requires KeepsAllBut(h0, h1, t) && KeepsAllBut(h1, h2, t)
    ensures KeepsAllBut(h0, h2, t)
  {
  }

  lemma ExtendsTransitive<K, V>(m0: map<K, V>, m1: map<K, V>, m2: map<K, V>)
    requires Extends(m0, m1) && Extends(m1, m2)
    ensures Extends(m0, m2) && m0.Keys <= m2.Keys
  {
  }

  // ---------------------------------------------------------------------
  // The cloner

  /**
   * The closure of `cloneParsedSvg`: the heap it allocates copies in, and the
   * `clones` memo that `clone` shares across the whole traversal.
   */
  class Cloner {
    /** The objects of the document being copied; `clone` never changes them. */
    const doc: Document
    /** Every object: the document's and the copies allocated so far. */
    var heap: map<Address, Obj>
    /** The next address the allocator hands out. */
    var next: Address
    /** `clones`: each original object already visited, with the address of its copy. */
    var clones: map<Address, Address>

    ghost predicate Valid()
      reads this
    {
      Consistent(doc, heap, next, clones)
    }

    ghost predicate Settled(stack: set<Address>)
      reads this
    {
      SettledIn(doc, heap, clones, stack)
    }

    /** `const clones = new Map()`, with the allocator starting at `firstFree`. */
    constructor (doc: Document, firstFree: Address)
      requires forall a :: a in doc ==> a < firstFree
      ensures this.doc == doc && heap == doc && next == firstFree && clones == map[]
      ensures Valid() && Settled({})
    {
      this.doc := doc;
      heap := doc;
      next := firstFree;
      clones := map[];
    }

    /**
     * `clone(obj)`. A value that is not an object comes back unchanged; an
     * object already in the memo comes back as its recorded copy; an object of
     * a supported kind gets a fresh copy that is put in the memo before any of
     * its children is cloned; any other object throws 'unexpected type'.
     */
    method Clone(v: Value, ghost stack: set<Address>) returns (r: Result<Value>)
      requires Valid() && ValueIn(v, doc)
      requires stack <= clones.Keys && Settled(stack)
      modifies this
      ensures Valid() && Extends(old(heap), heap) && Extends(old(clones), clones) && old(clones).Keys <= clones.Keys
      ensures !v.Ref? ==> r == Success(v) && heap == old(heap) && clones == old(clones)
      ensures v.Ref? && v.addr in old(clones) ==> r == Success(Ref(old(clones)[v.addr])) && heap == old(heap) && clones == old(clones)
      ensures r.Success? ==> Corresponds(clones, v, r.value) && Settled(stack)
      ensures r.Failure? ==> r.error == "unexpected type" && v.Ref? && ReachesUnsupported(doc, v.addr)
      decreases doc.Keys - clones.Keys, 1
    {
      if !v.Ref? {
        return Success(v);
      }
      var a := v.addr;
      if a in clones {
        return Success(Ref(clones[a]));
      }
      if doc[a].kind.OtherConstructor? {
        assert FailsThrough(doc, [a]);
        return Failure("unexpected type");
      }
      r := CloneObject(a, stack);
    }

    /**
     * `clone(obj)` for an object of a supported kind met for the first time:
     * `objClone` is allocated and recorded in `clones`, then filled in.
     */
    method CloneObject(a: Address, ghost stack: set<Address>) returns (r: Result<Value>)
      requires Valid() && a in doc && a !in clones && !doc[a].kind.OtherConstructor?
      requires stack <= clones.Keys && Settled(stack)
      modifies this
      ensures Valid() && Extends(old(heap), heap) && Extends(old(clones), clones) && old(clones).Keys <= clones.Keys
      ensures r.Success? ==> a in clones && r.value == Ref(clones[a]) && Settled(stack)
      ensures r.Failure? ==> r.error == "unexpected type" && ReachesUnsupported(doc, a)
      decreases doc.Keys - clones.Keys, 0
    {
      var o := doc[a];
      // `new JSAPI({}, obj.parentNode)` starts out with the original's parent.
      var blank := Fresh(o.kind, if o.kind == Element then o.parentNode else None);
      var c := next;
      Record(doc, heap, next, clones, stack, a, blank);
      heap := heap[c := blank];
      clones := clones[a := c];
      next := next + 1;
      assert a in doc.Keys - old(clones).Keys && a !in doc.Keys - clones.Keys;
      label Recorded:
      var done := Fill(c, a, stack + {a});
      AllocationKeeps(old(heap), heap, c, blank);
      ExtendsTransitive(old(clones), old@Recorded(clones), clones);
      if done.Failure? {
        return Failure(done.error);
      }
      Finish(doc, heap, clones, stack, a, c);
      r := Success(Ref(c));
    }

    /** The branches of `clone` that fill in `objClone`, chosen by the constructor of `obj`. */
    method Fill(target: Address, a: Address, ghost stack: set<Address>) returns (r: Result<Address>)
      requires Valid() && a in clones && clones[a] == target && a in stack && stack <= clones.Keys && Settled(stack)
      requires !doc[a].kind.OtherConstructor?
      requires heap[target] == Fresh(doc[a].kind, if doc[a].kind == Element then doc[a].parentNode else None)
      modifies this
      ensures Valid() && Extends(old(clones), clones) && old(clones).Keys <= clones.Keys
      ensures KeepsAllBut(old(heap), heap, target) && target in heap
      ensures r.Success? ==> r.value == target && Mirrors(clones, doc[a], heap[target]) && Settled(stack)
      ensures r.Failure? ==> r.error == "unexpected type" && ReachesUnsupported(doc, a)
      decreases doc.Keys - clones.Keys, 5
    {
      var kind := doc[a].kind;
      if kind == Element {
        r := CloneElement(target, a, stack);
      } else if kind == MapObject {
        r := CloneEntries(target, a, stack);
      } else if kind == SetObject {
        r := CloneMembers(target, a, stack);
      } else {
        r := CloneKeys(target, a, stack);
      }
    }

    /** The element branch of `clone`: the parent link is cloned first, then the properties. */
    method CloneElement(target: Address, a: Address, ghost stack: set<Address>) returns (r: Result<Address>)
      requires Valid() && a in clones && clones[a] == target && a in stack && stack <= clones.Keys && Settled(stack)
      requires doc[a].kind == Element && heap[target] == Fresh(Element, doc[a].parentNode)
      modifies this
      ensures Valid() && Extends(old(clones), clones) && old(clones).Keys <= clones.Keys
      ensures KeepsAllBut(old(heap), heap, target) && target in heap
      ensures r.Success? ==> r.value == target && Mirrors(clones, doc[a], heap[target]) && Settled(stack)
      ensures r.Failure? ==> r.error == "unexpected type" && ReachesUnsupported(doc, a)
      decreases doc.Keys - clones.Keys, 4
    {
      var o := doc[a];
      if o.parentNode.Some? {
        assert ClosedAt(doc, a);
        var parent := Clone(Ref(o.parentNode.value), stack);
        if parent.Failure? {
          ghost var p :| FailsThrough(doc, p) && p[0] == o.parentNode.value;
          PathPrepend(doc, a, p);
          KeepsAfterUpdate(old(heap), heap, target, heap[target]);
          return Failure(parent.error);
        }
        var parented := heap[target].(parentNode := Some(parent.value.addr));
        KeepsAfterUpdate(old(heap), heap, target, parented);
        UpdateCopy(doc, heap, next, clones, stack, a, parented);
        heap := heap[target := parented];
      }
      assert ParentCorresponds(clones, o.parentNode, heap[target].parentNode);
      label Parented:
      r := CloneKeys(target, a, stack);
      KeepsTransitive(old(heap), old@Parented(heap), heap, target);
      ExtendsTransitive(old(clones), old@Parented(clones), clones);
      if r.Success? {
        assert ParentCorresponds(clones, o.parentNode, heap[target].parentNode);
      }
    }

    /** `cloneKeys(target, obj)`: each own enumerable property of `obj`, cloned, in key order. */
    method CloneKeys(target: Address, a: Address, ghost stack: set<Address>) returns (r: Result<Address>)
      requires Valid() && a in clones && clones[a] == target && a in stack && stack <= clones.Keys && Settled(stack)
      requires doc[a].kind !in {MapObject, SetObject} && !doc[a].kind.OtherConstructor?
      requires heap[target].props == []
      modifies this
      ensures Valid() && Extends(old(clones), clones) && old(clones).Keys <= clones.Keys
      ensures KeepsAllBut(old(heap), heap, target)
      ensures target in heap && heap[target] == old(heap)[target].(props := heap[target].props)
      ensures r.Success? ==> r.value == target && PropsCorrespond(clones, doc[a].props, heap[target].props) && Settled(stack)
      ensures r.Failure? ==> r.error == "unexpected type" && ReachesUnsupported(doc, a)
      decreases doc.Keys - clones.Keys, 3
    {
      for i := 0 to |doc[a].props|
        invariant Valid() && Extends(old(clones), clones) && old(clones).Keys <= clones.Keys
        invariant stack <= clones.Keys && KeepsAllBut(old(heap), heap, target)
        invariant target in heap && heap[target] == old(heap)[target].(props := heap[target].props)
        invariant PropsCorrespond(clones, doc[a].props[..i], heap[target].props) && Settled(stack)
      {
        var copied := CloneProperty(target, a, i, stack);
        if copied.Failure? {
          return Failure(copied.error);
        }
      }
      assert doc[a].props[..|doc[a].props|] == doc[a].props;
      r := Success(target);
    }

    /** One round of `cloneKeys`: `target[key] = clone(obj[key])` for the `i`-th key of `obj`. */
    method CloneProperty(target: Address, a: Address, i: nat, ghost stack: set<Address>) returns (r: Result<()>)
      requires Valid() && a in clones && clones[a] == target && a in stack && stack <= clones.Keys && Settled(stack)
      requires doc[a].kind !in {MapObject, SetObject} && !doc[a].kind.OtherConstructor?
      requires i < |doc[a].props| && PropsCorrespond(clones, doc[a].props[..i], heap[target].props)
      modifies this
      ensures Valid() && Extends(old(clones), clones) && old(clones).Keys <= clones.Keys
      ensures KeepsAllBut(old(heap), heap, target)
      ensures target in heap && heap[target] == old(heap)[target].(props := heap[target].props)
      ensures r.Success? ==> PropsCorrespond(clones, doc[a].props[..i + 1], heap[target].props) && Settled(stack)
      ensures r.Failure? ==> r.error == "unexpected type" && ReachesUnsupported(doc, a)
      decreases doc.Keys - clones.Keys, 2
    {
      var obj := doc[a];
      var (key, value) := obj.props[i];
      assert ClosedAt(doc, a);
      var copy := Clone(value, stack);
      if copy.Failure? {
        ghost var p :| FailsThrough(doc, p) && p[0] == value.addr;
        assert InProps(obj.props, p[0]);
        PathPrepend(doc, a, p);
        KeepsAfterUpdate(old(heap), heap, target, heap[target]);
        return Failure(copy.error);
      }
      var props := Put(heap[target].props, key, copy.value);
      KeepsAfterUpdate(old(heap), heap, target, heap[target].(props := props));
      PropsGrow(old(clones), clones, obj.props[..i], heap[target].props);
      PropsSnoc(clones, obj.props, i, heap[target].props, copy.value);
      UpdateCopy(doc, heap, next, clones, stack, a, heap[target].(props := props));
      heap := heap[target := heap[target].(props := props)];
      r := Success(());
    }

    /** The Map branch of `clone`: every entry of `obj`, in order. */
    method CloneEntries(target: Address, a: Address, ghost stack: set<Address>) returns (r: Result<Address>)
      requires Valid() && a in clones && clones[a] == target && a in stack && stack <= clones.Keys && Settled(stack)
      requires doc[a].kind == MapObject && heap[target] == Fresh(MapObject, None)
      modifies this
      ensures Valid() && Extends(old(clones), clones) && old(clones).Keys <= clones.Keys
      ensures KeepsAllBut(old(heap), heap, target) && target in heap
      ensures r.Success? ==> r.value == target && Mirrors(clones, doc[a], heap[target]) && Settled(stack)
      ensures r.Failure? ==> r.error == "unexpected type" && ReachesUnsupported(doc, a)
      decreases doc.Keys - clones.Keys, 3
    {
      for i := 0 to |doc[a].entries|
        invariant Valid() && Extends(old(clones), clones) && old(clones).Keys <= clones.Keys
        invariant stack <= clones.Keys && KeepsAllBut(old(heap), heap, target)
        invariant target in heap && heap[target] == Fresh(MapObject, None).(entries := heap[target].entries)
        invariant EntriesCorrespond(clones, doc[a].entries[..i], heap[target].entries) && Settled(stack)
      {
        var copied := CloneEntry(target, a, i, stack);
        if copied.Failure? {
          return Failure(copied.error);
        }
      }
      assert doc[a].entries[..|doc[a].entries|] == doc[a].entries;
      r := Success(target);
    }

    /** One round of the Map branch: `objClone.set(clone(key), clone(val))` for the `i`-th entry of `obj`. */
    method CloneEntry(target: Address, a: Address, i: nat, ghost stack: set<Address>) returns (r: Result<()>)
      requires Valid() && a in clones && clones[a] == target && a in stack && stack <= clones.Keys && Settled(stack)
      requires doc[a].kind == MapObject
      requires i < |doc[a].entries| && EntriesCorrespond(clones, doc[a].entries[..i], heap[target].entries)
      modifies this
      ensures Valid() && Extends(old(clones), clones) && old(clones).Keys <= clones.Keys
      ensures KeepsAllBut(old(heap), heap, target)
      ensures target in heap && heap[target] == old(heap)[target].(entries := heap[target].entries)
      ensures r.Success? ==> EntriesCorrespond(clones, doc[a].entries[..i + 1], heap[target].entries) && Settled(stack)
      ensures r.Failure? ==> r.error == "unexpected type" && ReachesUnsupported(doc, a)
      decreases doc.Keys - clones.Keys, 2
    {
      var obj := doc[a];
      var (key, value) := obj.entries[i];
      assert ClosedAt(doc, a);
      var keyCopy := Clone(key, stack);
      ghost var middle := clones;
      ghost var middleHeap := heap;
      if keyCopy.Failure? {
        ghost var p :| FailsThrough(doc, p) && p[0] == key.addr;
        assert InEntries(obj.entries, p[0]);
        PathPrepend(doc, a, p);
        KeepsAfterUpdate(old(heap), heap, target, heap[target]);
        return Failure(keyCopy.error);
      }
      var valueCopy := Clone(value, stack);
      ExtendsTransitive(old(clones), middle, clones);
      ExtendsTransitive(old(heap), middleHeap, heap);
      if valueCopy.Failure? {
        ghost var p :| FailsThrough(doc, p) && p[0] == value.addr;
        assert InEntries(obj.entries, p[0]);
        PathPrepend(doc, a, p);
        KeepsAfterUpdate(old(heap), heap, target, heap[target]);
        return Failure(valueCopy.error);
      }
      EntriesGrow(old(clones), clones, obj.entries[..i], heap[target].entries);
      assert Corresponds(middle, key, keyCopy.value);
      ghost var cloned := heap;
      StoreEntry(target, a, i, stack, keyCopy.value, valueCopy.value);
      KeepsAfterUpdate(old(heap), cloned, target, heap[target]);
      r := Success(());
    }

    /** The `objClone.set(k, w)` of that round, once both halves are copied. */
    method StoreEntry(target: Address, a: Address, i: nat, ghost stack: set<Address>, k: Value, w: Value)
      requires Valid() && a in clones && clones[a] == target && a in stack && Settled(stack)
      requires doc[a].kind == MapObject && i < |doc[a].entries|
      requires EntriesCorrespond(clones, doc[a].entries[..i], heap[target].entries)
      requires Corresponds(clones, doc[a].entries[i].0, k) && Corresponds(clones, doc[a].entries[i].1, w)
      modifies this
      ensures clones == old(clones) && next == old(next)
      ensures heap == old(heap)[target := old(heap)[target].(entries := Put(old(heap)[target].entries, k, w))]
      ensures Valid() && Settled(stack)
      ensures EntriesCorrespond(clones, doc[a].entries[..i + 1], heap[target].entries)
    {
      var entries := Put(heap[target].entries, k, w);
      assert ClosedAt(doc, a);
      EntriesSnoc(clones, doc[a].entries, i, heap[target].entries, k, w);
      UpdateCopy(doc, heap, next, clones, stack, a, heap[target].(entries := entries));
      heap := heap[target := heap[target].(entries := entries)];
    }

    /** The Set branch of `clone`: every member of `obj`, in order. */
    method CloneMembers(target: Address, a: Address, ghost stack: set<Address>) returns (r: Result<Address>)
      requires Valid() && a in clones && clones[a] == target && a in stack && stack <= clones.Keys && Settled(stack)
      requires doc[a].kind == SetObject && heap[target] == Fresh(SetObject, None)
      modifies this
      ensures Valid() && Extends(old(clones), clones) && old(clones).Keys <= clones.Keys
      ensures KeepsAllBut(old(heap), heap, target) && target in heap
      ensures r.Success? ==> r.value == target && Mirrors(clones, doc[a], heap[target]) && Settled(stack)
      ensures r.Failure? ==> r.error == "unexpected type" && ReachesUnsupported(doc, a)
      decreases doc.Keys - clones.Keys, 3
    {
      for i := 0 to |doc[a].members|
        invariant Valid() && Extends(old(clones), clones) && old(clones).Keys <= clones.Keys
        invariant stack <= clones.Keys && KeepsAllBut(old(heap), heap, target)
        invariant target in heap && heap[target] == Fresh(SetObject, None).(members := heap[target].members)
        invariant MembersCorrespond(clones, doc[a].members[..i], heap[target].members) && Settled(stack)
      {
        var copied := CloneMember(target, a, i, stack);
        if copied.Failure? {
          return Failure(copied.error);
        }
      }
      assert doc[a].members[..|doc[a].members|] == doc[a].members;
      r := Success(target);
    }

    /** One round of the Set branch: `objClone.add(clone(val))` for the `i`-th member of `obj`. */
    method CloneMember(target: Address, a: Address, i: nat, ghost stack: set<Address>) returns (r: Result<()>)
      requires Valid() && a in clones && clones[a] == target && a in stack && stack <= clones.Keys && Settled(stack)
      requires doc[a].kind == SetObject
      requires i < |doc[a].members| && MembersCorrespond(clones, doc[a].members[..i], heap[target].members)
      modifies this
      ensures Valid() && Extends(old(clones), clones) && old(clones).Keys <= clones.Keys
      ensures KeepsAllBut(old(heap), heap, target)
      ensures target in heap && heap[target] == old(heap)[target].(members := heap[target].members)
      ensures r.Success? ==> MembersCorrespond(clones, doc[a].members[..i + 1], heap[target].members) && Settled(stack)
      ensures r.Failure? ==> r.error == "unexpected type" && ReachesUnsupported(doc, a)
      decreases doc.Keys - clones.Keys, 2
    {
      var obj := doc[a];
      var value := obj.members[i];
      assert ClosedAt(doc, a);
      var copy := Clone(value, stack);
      if copy.Failure? {
        ghost var p :| FailsThrough(doc, p) && p[0] == value.addr;
        assert Ref(p[0]) in obj.members;
        PathPrepend(doc, a, p);
        KeepsAfterUpdate(old(heap), heap, target, heap[target]);
        return Failure(copy.error);
      }
      var members := Add(heap[target].members, copy.value);
      KeepsAfterUpdate(old(heap), heap, target, heap[target].(members := members));
      MembersGrow(old(clones), clones, obj.members[..i], heap[target].members);
      MembersSnoc(clones, obj.members, i, heap[target].members, copy.value);
      UpdateCopy(doc, heap, next, clones, stack, a, heap[target].(members := members));
      heap := heap[target := heap[target].(members := members)];
      r := Success(());
    }
  }

  /**
   * `cloneParsedSvg(svg)` on a document whose objects all lie below
   * `firstFree`. On success the result is the copy of `svg`, every object
   * reachable from it is copied one to one into fresh addresses, and the
   * document itself is untouched; it throws 'unexpected type' exactly when
   * an object of an unsupported kind is reachable from `svg`.
   */
  method CloneParsedSvg(doc: Document, firstFree: Address, svg: Value)
      returns (r: Result<Value>, heap: map<Address, Obj>, ghost copies: map<Address, Address>)
    requires ValueIn(svg, doc) && forall a :: a in doc ==> a < firstFree
    ensures r.Success? ==> Extends(doc, heap) && IsDeepCopy(doc, heap, copies) && Corresponds(copies, svg, r.value)
    ensures r.Success? <==> !(svg.Ref? && ReachesUnsupported(doc, svg.addr))
    ensures r.Failure? ==> r.error == "unexpected type"
  {
    var cloner := new Cloner(doc, firstFree);
    r := cloner.Clone(svg, {});
    heap, copies := cloner.heap, cloner.clones;
    if r.Success? && svg.Ref? {
      forall a | a in copies ensures copies[a] in heap && copies[a] !in doc && Mirrors(copies, doc[a], heap[copies[a]]) {
        assert SettledAt(doc, heap, copies, {}, a);
      }
      assert IsDeepCopy(doc, heap, copies);
      if ReachesUnsupported(doc, svg.addr) {
        var p :| FailsThrough(doc, p) && p[0] == svg.addr;
        CopyCoversPaths(doc, heap, copies, p);
        assert false;
      }
    }
  }
}
