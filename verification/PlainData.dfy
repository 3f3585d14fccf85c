/**
 The gate every judgment passes first: `assertPlainDataTree` walks an arbitrary
 object graph depth first with one shared, mutated set of ancestors, and
 `deepFrozenCopy` unfolds a value into a tree of fresh objects.
 */
module PlainData {
  import opened Wrappers
  import opened Ordering
  import opened Text
  import opened Strings

  /** A JavaScript value: a primitive, or a reference to an object on the heap. */
  datatype Value = Primitive(text: string) | Ref(node: nat)

  /** An own property: a data property, an accessor, or a missing array element. */
  datatype Property = Data(value: Value, enumerable: bool) | Accessor | Hole

  datatype Prototype = Standard | Null | Foreign

  /**
   An object, or an array of the given elements.  `strays` are an array's own
   keys besides its indices and its length.
   */
  datatype Node =
    | ObjectNode(prototype: Prototype, hasSymbols: bool, own: seq<(string, Property)>)
    | ArrayNode(prototype: Prototype, hasSymbols: bool, elements: seq<Property>, strays: seq<(string, Property)>)

  function Properties(entries: seq<(string, Property)>): (r: seq<Property>)
    ensures |r| == |entries| && forall i :: 0 <= i < |r| ==> r[i] == entries[i].1
  {
    seq(|entries|, i requires 0 <= i < |entries| => entries[i].1)
  }

  function Keys<T>(entries: seq<(string, T)>): (r: seq<string>)
    ensures |r| == |entries| && forall i :: 0 <= i < |r| ==> r[i] == entries[i].0
  {
    seq(|entries|, i requires 0 <= i < |entries| => entries[i].0)
  }

  /** The properties the gate visits: every own one but an array's length. */
  function Own(node: Node): seq<Property> {
    match node
    case ObjectNode(_, _, own) => Properties(own)
    case ArrayNode(_, _, elements, strays) => elements + Properties(strays)
  }

  /** Keys are distinct, and every reference stored in the heap leads to a heap object. */
  ghost predicate Closed(g: map<nat, Node>) {
    && (forall n :: n in g ==> DistinctKeys(g[n]))
    && forall n, i :: n in g && 0 <= i < |Own(g[n])| && Own(g[n])[i].Data? ==> InHeap(g, Own(g[n])[i].value)
  }

  ghost predicate DistinctKeys(node: Node) {
    Distinct(Keys(if node.ObjectNode? then node.own else node.strays))
  }

  predicate InHeap(g: map<nat, Node>, v: Value) {
    v.Ref? ==> v.node in g
  }

  /** `^(0|[1-9][0-9]*)$` */
  predicate IsNumberKey(s: string) {
    s == "0" || (s != "" && s[0] != '0' && forall i :: 0 <= i < |s| ==> IsDigit(s[i]))
  }

  /** The checks on one object before its properties are visited. */
  predicate Admissible(node: Node) {
    && !node.prototype.Foreign? && !node.hasSymbols
    && (node.ArrayNode? ==>
          && (forall i :: 0 <= i < |node.elements| ==> !node.elements[i].Hole?)
          && (forall i :: 0 <= i < |node.strays| ==> IsNumberKey(node.strays[i].0)))
  }

  method CheckNode(node: Node) returns (ok: bool)
    ensures ok <==> Admissible(node)
  {
    if node.prototype.Foreign? || node.hasSymbols { return false; }
    if node.ArrayNode? {
      for i := 0 to |node.elements|
        invariant forall k :: 0 <= k < i ==> !node.elements[k].Hole?
      {
        if node.elements[i].Hole? { return false; }
      }
      for i := 0 to |node.strays|
        invariant forall k :: 0 <= k < i ==> IsNumberKey(node.strays[k].0)
      {
        if !IsNumberKey(node.strays[i].0) { return false; }
      }
    }
    return true;
  }

  class Ancestors {
    var nodes: set<nat>

    constructor ()
      ensures nodes == {}
    {
      nodes := {};
    }
  }

  ghost predicate Accepts(g: map<nat, Node>, v: Value, above: set<nat>)
    requires Closed(g) && InHeap(g, v)
    decreases g.Keys - above
  {
    v.Ref? ==>
      && v.node !in above
      && Admissible(g[v.node])
      && forall i :: 0 <= i < |Own(g[v.node])| ==>
           Own(g[v.node])[i].Data? && Accepts(g, Own(g[v.node])[i].value, above + {v.node})
  }

  /** Terminates on every finite heap, and leaves the ancestors as it found them on either outcome. */
  method AssertPlainDataTree(g: map<nat, Node>, v: Value, ancestors: Ancestors) returns (ok: bool)
    requires Closed(g) && InHeap(g, v)
    modifies ancestors
    ensures ancestors.nodes == old(ancestors.nodes)
    ensures ok <==> Accepts(g, v, old(ancestors.nodes))
    decreases g.Keys - ancestors.nodes
  {
    if v.Primitive? {
      return true;
    }
    var n := v.node;
    if n in ancestors.nodes {
      return false;
    }
    var admissible := CheckNode(g[n]);
    if !admissible {
      return false;
    }
    ghost var above := ancestors.nodes;
    ancestors.nodes := ancestors.nodes + {n};
    ok := true;
    var own := Own(g[n]);
    var i := 0;
    while ok && i < |own|
      invariant 0 <= i <= |own|
      invariant ancestors.nodes == above + {n}
      invariant ok ==> forall k :: 0 <= k < i ==> own[k].Data? && Accepts(g, own[k].value, above + {n})
      invariant !ok ==> 0 < i
      invariant !ok ==> !(own[i - 1].Data? && Accepts(g, own[i - 1].value, above + {n}))
      decreases |own| - i
    {
      if own[i].Data? {
        ok := AssertPlainDataTree(g, own[i].value, ancestors);
      } else {
        ok := false;
      }
      i := i + 1;
    }
    ancestors.nodes := ancestors.nodes - {n};
  }

  method IsPlainData(g: map<nat, Node>, root: Value) returns (ok: bool)
    requires Closed(g) && InHeap(g, root)
    ensures ok <==> Accepts(g, root, {})
  {
    var ancestors := new Ancestors();
    ok := AssertPlainDataTree(g, root, ancestors);
  }

  // ----- what acceptance means ---------------------------------------------------

  ghost predicate Edge(g: map<nat, Node>, a: nat, b: nat)
    requires a in g
  {
    exists i :: 0 <= i < |Own(g[a])| && Own(g[a])[i].Data? && Own(g[a])[i].value == Ref(b)
  }

  ghost predicate Walk(g: map<nat, Node>, w: seq<nat>) {
    && w != []
    && (forall i :: 0 <= i < |w| ==> w[i] in g)
    && (forall i :: 0 <= i < |w| - 1 ==> Edge(g, w[i], w[i + 1]))
  }

  /** A node that passes the gate's own checks, its children aside. */
  ghost predicate NodeOk(node: Node) {
    Admissible(node) && forall i :: 0 <= i < |Own(node)| ==> Own(node)[i].Data?
  }

  ghost predicate WalkFrom(g: map<nat, Node>, w: seq<nat>, a: nat, b: nat) {
    Walk(g, w) && w[0] == a && w[|w| - 1] == b
  }

  ghost predicate Reachable(g: map<nat, Node>, a: nat, b: nat) {
    exists w :: WalkFrom(g, w, a, b)
  }

  ghost predicate OnCycle(g: map<nat, Node>, a: nat) {
    exists w :: |w| > 1 && WalkFrom(g, w, a, a)
  }

  /** A walk that avoids `above`, repeats no node, and visits only well-formed nodes. */
  ghost predicate Clean(g: map<nat, Node>, w: seq<nat>, above: set<nat>)
    requires Walk(g, w)
  {
    Distinct(w) && forall i :: 0 <= i < |w| ==> w[i] !in above && NodeOk(g[w[i]])
  }

  lemma WalkTail(g: map<nat, Node>, w: seq<nat>)
    requires Walk(g, w) && |w| > 1
    ensures Walk(g, w[1..])
  {
    assert forall i :: 0 <= i < |w[1..]| ==> w[1..][i] == w[i + 1];
  }

  lemma {:induction false} AcceptedWalksClean(g: map<nat, Node>, w: seq<nat>, above: set<nat>)
    requires Closed(g) && Walk(g, w) && Accepts(g, Ref(w[0]), above)
    ensures Clean(g, w, above)
  {
    if |w| > 1 {
      WalkTail(g, w);
      assert Edge(g, w[0], w[1]);
      AcceptedWalksClean(g, w[1..], above + {w[0]});
      assert forall i :: 0 < i < |w| ==> w[i] == w[1..][i - 1];
      assert forall i :: 0 < i < |w| ==> w[i] !in above + {w[0]};
    }
  }

  /** A rejected node has a walk that shows why. */
  lemma {:induction false} RejectedWalk(g: map<nat, Node>, n: nat, above: set<nat>) returns (w: seq<nat>)
    requires Closed(g) && n in g && !Accepts(g, Ref(n), above)
    ensures Walk(g, w) && w[0] == n && !Clean(g, w, above)
    decreases g.Keys - above
  {
    w := [n];
    if n !in above && NodeOk(g[n]) {
      var i :| 0 <= i < |Own(g[n])| && !Accepts(g, Own(g[n])[i].value, above + {n});
      var tail := RejectedWalk(g, Own(g[n])[i].value.node, above + {n});
      assert Edge(g, n, tail[0]);
      w := [n] + tail;
      WalkCons(g, n, tail);
      CleanCons(g, n, tail, above);
    }
  }

  lemma WalkCons(g: map<nat, Node>, n: nat, tail: seq<nat>)
    requires n in g && Walk(g, tail) && Edge(g, n, tail[0])
    ensures Walk(g, [n] + tail)
  {
    var w := [n] + tail;
    forall i | 0 <= i < |w| - 1 ensures Edge(g, w[i], w[i + 1]) {
      assert i > 0 ==> Edge(g, tail[i - 1], tail[i]);
    }
  }

  lemma CleanCons(g: map<nat, Node>, n: nat, tail: seq<nat>, above: set<nat>)
    requires Walk(g, tail) && Walk(g, [n] + tail)
    ensures Clean(g, [n] + tail, above) ==> Clean(g, tail, above + {n})
  {
    if Clean(g, [n] + tail, above) {
      CleanTail(g, [n] + tail, above);
      assert ([n] + tail)[1..] == tail;
    }
  }

  lemma CleanTail(g: map<nat, Node>, w: seq<nat>, above: set<nat>)
    requires Walk(g, w) && |w| > 1 && Clean(g, w, above)
    ensures Walk(g, w[1..]) && Clean(g, w[1..], above + {w[0]})
  {
    WalkTail(g, w);
    assert forall i :: 0 <= i < |w[1..]| ==> w[1..][i] == w[i + 1];
  }

  lemma WalkPrefix(g: map<nat, Node>, w: seq<nat>, i: nat)
    requires Walk(g, w) && i < |w|
    ensures WalkFrom(g, w[..i + 1], w[0], w[i])
  {
  }

  lemma WalkSlice(g: map<nat, Node>, w: seq<nat>, i: nat, j: nat)
    requires Walk(g, w) && i < j < |w|
    ensures WalkFrom(g, w[i..j + 1], w[i], w[j])
  {
    var part := w[i..j + 1];
    assert forall k :: 0 <= k < |part| ==> part[k] == w[i + k];
    forall k | 0 <= k < |part| - 1 ensures Edge(g, part[k], part[k + 1]) {
      assert Edge(g, w[i + k], w[i + k + 1]);
    }
  }

  lemma WalkJoin(g: map<nat, Node>, a: seq<nat>, b: seq<nat>)
    requires Walk(g, a) && Walk(g, b) && a[|a| - 1] == b[0]
    ensures WalkFrom(g, a + b[1..], a[0], b[|b| - 1])
  {
    var w := a + b[1..];
    forall k | 0 <= k < |w| - 1 ensures Edge(g, w[k], w[k + 1]) {
      if k + 1 >= |a| {
        assert Edge(g, b[k + 1 - |a|], b[k + 2 - |a|]);
      }
    }
  }

  /**
   Plain data: the standard prototype or none, no symbol keys, data properties only;
   an array besides has every element and no further key but decimal numerals.
   */
  ghost predicate IsPlain(node: Node) {
    && (node.prototype == Standard || node.prototype == Null) && !node.hasSymbols
    && match node
       case ObjectNode(_, _, own) => forall e :: e in own ==> e.1.Data?
       case ArrayNode(_, _, elements, strays) =>
         && (forall e :: e in elements ==> e.Data?)
         && (forall e :: e in strays ==> e.1.Data? && exists n: nat :: e.0 == Decimal(n))
  }

  lemma {:induction false} DecimalIsNumberKey(n: nat)
    ensures IsNumberKey(Decimal(n)) && (Decimal(n)[0] == '0' ==> n == 0)
  {
    if n >= 10 {
      DecimalIsNumberKey(n / 10);
      assert Decimal(n)[0] == Decimal(n / 10)[0];
    }
  }

  lemma {:induction false} NumberKeyIsDecimal(s: string) returns (n: nat)
    requires IsNumberKey(s)
    ensures s == Decimal(n) && (n == 0 ==> s == "0")
  {
    if |s| == 1 {
      n := DigitValue(s[0]);
    } else {
      var k := |s| - 1;
      var m := NumberKeyIsDecimal(s[..k]);
      n := 10 * m + DigitValue(s[k]);
      assert m > 0 by { assert s[..k][0] == s[0] && s[0] != '0'; }
      assert n / 10 == m && n % 10 == DigitValue(s[k]);
      assert s == s[..k] + [s[k]];
    }
  }

  lemma NumberKeys(s: string)
    ensures IsNumberKey(s) <==> exists n: nat :: s == Decimal(n)
  {
    if IsNumberKey(s) {
      var n := NumberKeyIsDecimal(s);
    }
    if n: nat :| s == Decimal(n) {
      DecimalIsNumberKey(n);
    }
  }

  lemma MembersOf<T>(s: seq<T>, p: T -> bool)
    ensures (forall e :: e in s ==> p(e)) <==> forall i :: 0 <= i < |s| ==> p(s[i])
  {
    assert forall i :: 0 <= i < |s| ==> s[i] in s;
  }

  /** The gate's checks on one node amount to plain data. */
  lemma NodeOkExact(node: Node)
    ensures NodeOk(node) <==> IsPlain(node)
  {
    match node
    case ObjectNode(_, _, own) =>
      MembersOf(own, (e: (string, Property)) => e.1.Data?);
      assert forall i :: 0 <= i < |own| ==> Own(node)[i] == own[i].1;
    case ArrayNode(_, _, elements, strays) =>
      MembersOf(elements, (e: Property) => e.Data?);
      MembersOf(strays, (e: (string, Property)) => e.1.Data? && IsNumberKey(e.0));
      forall e | e in strays ensures IsNumberKey(e.0) <==> exists n: nat :: e.0 == Decimal(n) {
        NumberKeys(e.0);
      }
      OwnOfArray(node);
  }

  lemma OwnOfArray(node: Node)
    requires node.ArrayNode?
    ensures (forall i :: 0 <= i < |Own(node)| ==> Own(node)[i].Data?)
       <==> && (forall i :: 0 <= i < |node.elements| ==> node.elements[i].Data?)
            && (forall i :: 0 <= i < |node.strays| ==> node.strays[i].1.Data?)
  {
    var n := |node.elements|;
    assert forall i :: 0 <= i < n ==> Own(node)[i] == node.elements[i];
    forall i | 0 <= i < |node.strays| ensures Own(node)[n + i] == node.strays[i].1 {
    }
  }

  /**
   The gate accepts an object exactly when every reachable object is plain data
   and no reachable object lies on a cycle.  Shared objects are no obstacle.
   */
  lemma AcceptsExact(g: map<nat, Node>, root: nat)
    requires Closed(g) && root in g
    ensures Accepts(g, Ref(root), {})
            <==> forall n :: Reachable(g, root, n) ==> n in g && IsPlain(g[n]) && !OnCycle(g, n)
  {
    if Accepts(g, Ref(root), {}) {
      forall n | Reachable(g, root, n) ensures n in g && IsPlain(g[n]) && !OnCycle(g, n) {
        ReachableIsClean(g, root, n);
        NodeOkExact(g[n]);
      }
    } else {
      var n := RejectedNode(g, root);
      if n in g { NodeOkExact(g[n]); }
    }
  }

  lemma ReachableIsClean(g: map<nat, Node>, root: nat, n: nat)
    requires Closed(g) && root in g && Accepts(g, Ref(root), {}) && Reachable(g, root, n)
    ensures n in g && NodeOk(g[n]) && !OnCycle(g, n)
  {
    var w :| WalkFrom(g, w, root, n);
    AcceptedWalksClean(g, w, {});
    forall c | |c| > 1 && WalkFrom(g, c, n, n) ensures false {
      WalkJoin(g, w, c);
      var loop := w + c[1..];
      assert !Distinct(loop) by { assert loop[|w| - 1] == loop[|loop| - 1]; }
      AcceptedWalksClean(g, loop, {});
    }
  }

  lemma RejectedNode(g: map<nat, Node>, root: nat) returns (n: nat)
    requires Closed(g) && root in g && !Accepts(g, Ref(root), {})
    ensures Reachable(g, root, n) && !(n in g && NodeOk(g[n]) && !OnCycle(g, n))
  {
    var w := RejectedWalk(g, root, {});
    if Distinct(w) {
      var i :| 0 <= i < |w| && !NodeOk(g[w[i]]);
      WalkPrefix(g, w, i);
      n := w[i];
    } else {
      var i, j :| 0 <= i < j < |w| && w[i] == w[j];
      WalkPrefix(g, w, i);
      WalkSlice(g, w, i, j);
      assert |w[i..j + 1]| > 1;
      n := w[i];
    }
  }

  // ----- the frozen copy -----------------------------------------------------------

  /** A frozen copy; `proto` is the prototype an own `__proto__` entry gave it. */
  datatype Tree =
    | Leaf(text: string)
    | ObjectTree(fields: seq<(string, Tree)>, proto: Option<Tree>)
    | ArrayTree(items: seq<Tree>)

  /** `Object.entries`: the enumerable own properties, in order. */
  function Entries(own: seq<(string, Property)>): seq<(string, Value)>
    requires forall i :: 0 <= i < |own| ==> own[i].1.Data?
  {
    if own == [] then []
    else
      var n := |own| - 1;
      Entries(own[..n]) + if own[n].1.enumerable then [(own[n].0, own[n].1.value)] else []
  }

  lemma {:induction false} EntriesAreOwn(own: seq<(string, Property)>)
    requires forall i :: 0 <= i < |own| ==> own[i].1.Data?
    ensures forall e :: e in Entries(own) ==> (e.0, Data(e.1, true)) in own
  {
    if own != [] {
      var n := |own| - 1;
      EntriesAreOwn(own[..n]);
      assert forall e :: e in own[..n] ==> e in own;
      assert own[n] in own;
    }
  }

  /** Assigning to `__proto__` runs the prototype setter and leaves no own property. */
  function Assigned<T>(entries: seq<(string, T)>): seq<(string, T)> {
    if entries == [] then []
    else
      var n := |entries| - 1;
      Assigned(entries[..n]) + if entries[n].0 == "__proto__" then [] else [entries[n]]
  }

  /** The prototype assigned to `__proto__`, when it is an object. */
  function ProtoOf(entries: seq<(string, Tree)>): Option<Tree> {
    if entries == [] then None
    else if entries[0].0 == "__proto__" && !entries[0].1.Leaf? then Some(entries[0].1)
    else ProtoOf(entries[1..])
  }

  /** The keys an object with this frozen prototype inherits as read-only. */
  function Locked(t: Tree): set<string> {
    match t
    case Leaf(_) => {}
    case ObjectTree(fields, proto) =>
      (set i | 0 <= i < |fields| :: fields[i].0) + (if proto.Some? then Locked(proto.value) else {})
    case ArrayTree(items) => (set i | 0 <= i < |items| :: Decimal(i)) + {"length"}
  }

  /** A later assignment meets a read-only property inherited from an assigned prototype. */
  predicate Clashes(entries: seq<(string, Tree)>) {
    exists i, j :: 0 <= i < j < |entries| && ClashesAt(entries, i, j)
  }

  predicate ClashesAt(entries: seq<(string, Tree)>, i: nat, j: nat)
    requires i < j < |entries|
  {
    entries[i].0 == "__proto__" && entries[j].0 in Locked(entries[i].1)
  }

  /** The values an accepted node hands to the copies of its parts. */
  function Parts(node: Node): (r: seq<(string, Value)>)
    requires forall i :: 0 <= i < |Own(node)| ==> Own(node)[i].Data?
    ensures forall i :: 0 <= i < |r| ==> Holds(node, r[i].1)
  {
    match node
    case ObjectNode(_, _, own) =>
      ObjectHolds(node);
      assert forall i :: 0 <= i < |own| ==> own[i] in own;
      EntriesAreOwn(own);
      Entries(own)
    case ArrayNode(_, _, elements, _) =>
      assert forall i :: 0 <= i < |elements| ==> elements[i] == Own(node)[i] && Holds(node, elements[i].value);
      seq(|elements|, i requires 0 <= i < |elements| => ("", elements[i].value))
  }

  lemma ObjectHolds(node: Node)
    requires node.ObjectNode? && forall i :: 0 <= i < |Own(node)| ==> Own(node)[i].Data?
    ensures forall e :: e in node.own ==> e.1.Data? && Holds(node, e.1.value)
  {
    forall e | e in node.own ensures e.1.Data? && Holds(node, e.1.value) {
      var i :| 0 <= i < |node.own| && node.own[i] == e;
      assert Own(node)[i] == e.1;
    }
  }

  ghost predicate Holds(node: Node, v: Value) {
    exists j :: 0 <= j < |Own(node)| && Own(node)[j].Data? && Own(node)[j].value == v
  }

  /**
   None is a throw: an array without a prototype has no `map`, and an assignment
   may meet a read-only inherited property.  Terminates on every accepted value,
   as no node recurs below itself.
   */
  function DeepFrozenCopy(g: map<nat, Node>, v: Value, ghost above: set<nat>): Option<Tree>
    requires Closed(g) && InHeap(g, v) && Accepts(g, v, above)
    decreases g.Keys - above
  {
    match v
    case Primitive(text) => Some(Leaf(text))
    case Ref(n) =>
      var parts := Parts(g[n]);
      if g[n].ArrayNode? && g[n].prototype.Null? then None
      else if exists i :: 0 <= i < |parts| && DeepFrozenCopy(g, parts[i].1, above + {n}).None? then None
      else
        var copies := seq(|parts|, i requires 0 <= i < |parts| =>
          (parts[i].0, DeepFrozenCopy(g, parts[i].1, above + {n}).value));
        if !g[n].ArrayNode? && Clashes(copies) then None else Some(Built(g[n].ArrayNode?, copies))
  }

  function Built(isArray: bool, copies: seq<(string, Tree)>): Tree {
    if isArray then ArrayTree(seq(|copies|, i requires 0 <= i < |copies| => copies[i].1))
    else ObjectTree(Assigned(copies), ProtoOf(copies))
  }

  // ----- what a reader sees ---------------------------------------------------------

  datatype Step = Index(i: nat) | Field(key: string)

  /** What a reader sees after following own properties from a value. */
  datatype View =
    | Missing | Text(text: string) | ObjectView(keys: seq<string>) | ArrayView(length: nat, strays: seq<string>)

  ghost function LookUp<T>(entries: seq<(string, T)>, key: string): Option<T> {
    if entries == [] then None
    else if entries[0].0 == key then Some(entries[0].1)
    else LookUp(entries[1..], key)
  }

  ghost function PropertyAt(node: Node, step: Step): Option<Property> {
    match (node, step)
    case (ObjectNode(_, _, own), Field(key)) => LookUp(own, key)
    case (ArrayNode(_, _, elements, _), Index(i)) => if i < |elements| then Some(elements[i]) else None
    case (ArrayNode(_, _, _, strays), Field(key)) => LookUp(strays, key)
    case _ => None
  }

  ghost function ChildAt(t: Tree, step: Step): Option<Tree> {
    match (t, step)
    case (ObjectTree(fields, _), Field(key)) => LookUp(fields, key)
    case (ArrayTree(items), Index(i)) => if i < |items| then Some(items[i]) else None
    case _ => None
  }

  lemma {:induction false} LookUpIndex<T>(entries: seq<(string, T)>, key: string) returns (i: nat)
    requires LookUp(entries, key).Some?
    ensures i < |entries| && entries[i] == (key, LookUp(entries, key).value)
  {
    if entries[0].0 == key {
      i := 0;
    } else {
      var j := LookUpIndex(entries[1..], key);
      i := j + 1;
    }
  }

  lemma {:induction false} LookUpAt<T>(entries: seq<(string, T)>, i: nat)
    requires Distinct(Keys(entries)) && i < |entries|
    ensures LookUp(entries, entries[i].0) == Some(entries[i].1)
  {
    if i > 0 {
      assert Keys(entries)[0] != Keys(entries)[i];
      var rest := entries[1..];
      assert forall a :: 0 <= a < |rest| ==> Keys(rest)[a] == Keys(entries)[a + 1];
      LookUpAt(rest, i - 1);
    }
  }

  lemma PropertyIsOwn(node: Node, step: Step)
    requires PropertyAt(node, step).Some?
    ensures PropertyAt(node, step).value in Own(node)
  {
    match (node, step)
    case (ObjectNode(_, _, own), Field(key)) =>
      var i := LookUpIndex(own, key);
      assert Own(node)[i] == own[i].1;
    case (ArrayNode(_, _, elements, _), Index(i)) =>
      assert Own(node)[i] == elements[i];
    case (ArrayNode(_, _, elements, strays), Field(key)) =>
      var i := LookUpIndex(strays, key);
      assert Own(node)[|elements| + i] == strays[i].1;
    case _ =>
  }

  ghost function Surface(node: Node): View {
    match node
    case ObjectNode(_, _, own) => ObjectView(Keys(own))
    case ArrayNode(_, _, elements, strays) => ArrayView(|elements|, Keys(strays))
  }

  ghost function HeapView(g: map<nat, Node>, v: Value, path: seq<Step>): View
    requires Closed(g) && InHeap(g, v)
    decreases |path|
  {
    match v
    case Primitive(text) => if path == [] then Text(text) else Missing
    case Ref(n) =>
      if path == [] then Surface(g[n])
      else
        var p := PropertyAt(g[n], path[0]);
        if p.Some? && p.value.Data? then
          PropertyIsOwn(g[n], path[0]);
          HeapView(g, p.value.value, path[1..])
        else Missing
  }

  ghost function TreeView(t: Tree, path: seq<Step>): View
    decreases |path|
  {
    if path == [] then
      match t
      case Leaf(text) => Text(text)
      case ObjectTree(fields, _) => ObjectView(Keys(fields))
      case ArrayTree(items) => ArrayView(|items|, [])
    else
      var child := ChildAt(t, path[0]);
      if child.Some? then TreeView(child.value, path[1..]) else Missing
  }

  // ----- when the copy is faithful ----------------------------------------------------

  /** The copy exists and shows, along every path of own properties, what the heap shows. */
  ghost predicate Faithful(g: map<nat, Node>, v: Value, above: set<nat>)
    requires Closed(g) && InHeap(g, v) && Accepts(g, v, above)
  {
    var copy := DeepFrozenCopy(g, v, above);
    copy.Some? && forall path :: TreeView(copy.value, path) == HeapView(g, v, path)
  }

  /** No hidden or `__proto__` property on an object; a prototype and no stray key on an array. */
  predicate Copies(node: Node) {
    match node
    case ObjectNode(_, _, own) =>
      forall i :: 0 <= i < |own| ==> own[i].0 != "__proto__" && (own[i].1.Data? ==> own[i].1.enumerable)
    case ArrayNode(prototype, _, _, strays) => !prototype.Null? && strays == []
  }

  predicate Shown(own: seq<(string, Property)>) {
    forall i :: 0 <= i < |own| ==> own[i].1.Data? && own[i].1.enumerable
  }

  lemma {:induction false} EntriesAll(own: seq<(string, Property)>)
    requires Shown(own)
    ensures |Entries(own)| == |own|
    ensures forall i :: 0 <= i < |own| ==> Entries(own)[i] == (own[i].0, own[i].1.value)
  {
    if own != [] {
      var n := |own| - 1;
      assert Shown(own[..n]);
      EntriesAll(own[..n]);
    }
  }

  lemma {:induction false} EntriesFewer(own: seq<(string, Property)>)
    requires forall i :: 0 <= i < |own| ==> own[i].1.Data?
    ensures |Entries(own)| <= |own|
    ensures |Entries(own)| == |own| ==> Shown(own)
  {
    if own != [] {
      var n := |own| - 1;
      EntriesFewer(own[..n]);
      assert forall i :: 0 <= i < n ==> own[i] == own[..n][i];
    }
  }

  lemma {:induction false} AssignedAll<T>(entries: seq<(string, T)>)
    ensures |Assigned(entries)| <= |entries|
    ensures |Assigned(entries)| == |entries| <==> forall i :: 0 <= i < |entries| ==> entries[i].0 != "__proto__"
    ensures |Assigned(entries)| == |entries| ==> Assigned(entries) == entries
  {
    if entries != [] {
      var n := |entries| - 1;
      AssignedAll(entries[..n]);
      assert entries == entries[..n] + [entries[n]];
    }
  }

  ghost function StepTo(node: Node, i: nat): Step
    requires i < |Own(node)|
  {
    match node
    case ObjectNode(_, _, own) => Field(own[i].0)
    case ArrayNode(_, _, _, _) => Index(i)
  }

  /** The parts of a copyable node are all its own properties, in order. */
  lemma PartsAll(node: Node)
    requires Copies(node) && forall i :: 0 <= i < |Own(node)| ==> Own(node)[i].Data?
    ensures |Parts(node)| == |Own(node)|
    ensures forall i :: 0 <= i < |Own(node)| ==> Parts(node)[i].1 == Own(node)[i].value
    ensures node.ObjectNode? ==> Keys(Parts(node)) == Keys(node.own)
  {
    if node.ObjectNode? {
      assert forall i :: 0 <= i < |node.own| ==> node.own[i].1 == Own(node)[i];
      assert Shown(node.own);
      EntriesAll(node.own);
    } else {
      assert Own(node) == node.elements;
    }
  }

  lemma StepsReach(node: Node, i: nat)
    requires Copies(node) && DistinctKeys(node) && i < |Own(node)|
    ensures PropertyAt(node, StepTo(node, i)) == Some(Own(node)[i])
  {
    if node.ObjectNode? {
      LookUpAt(node.own, i);
    } else {
      assert Own(node) == node.elements;
    }
  }

  lemma StepIsTo(node: Node, step: Step) returns (i: nat)
    requires Copies(node) && PropertyAt(node, step).Some?
    ensures i < |Own(node)| && step == StepTo(node, i)
  {
    if node.ObjectNode? {
      i := LookUpIndex(node.own, step.key);
    } else {
      assert Own(node) == node.elements;
      assert step.Index?;
      i := step.i;
    }
  }

  /** A tree built from copies of all own properties of a copyable node has the node's surface and steps. */
  lemma BuiltMatches(node: Node, copies: seq<(string, Tree)>, step: Step)
    requires Copies(node) && DistinctKeys(node)
    requires |copies| == |Own(node)| && (node.ObjectNode? ==> Keys(copies) == Keys(node.own))
    ensures TreeView(Built(node.ArrayNode?, copies), []) == Surface(node)
    ensures ChildAt(Built(node.ArrayNode?, copies), step).Some? <==> PropertyAt(node, step).Some?
    ensures forall i :: 0 <= i < |Own(node)| && step == StepTo(node, i) ==>
      ChildAt(Built(node.ArrayNode?, copies), step) == Some(copies[i].1)
  {
    if node.ObjectNode? {
      NothingAssignedAway(node, copies);
      FieldsMatch(node.own, copies, step);
    } else {
      ItemsMatch(node, copies, step);
    }
  }

  lemma ItemsMatch(node: Node, copies: seq<(string, Tree)>, step: Step)
    requires node.ArrayNode? && Copies(node) && |copies| == |Own(node)|
    ensures TreeView(Built(true, copies), []) == Surface(node)
    ensures ChildAt(Built(true, copies), step).Some? <==> PropertyAt(node, step).Some?
    ensures forall i :: 0 <= i < |copies| && step == Index(i) ==> ChildAt(Built(true, copies), step) == Some(copies[i].1)
  {
    assert Own(node) == node.elements;
  }

  lemma NothingAssignedAway(node: Node, copies: seq<(string, Tree)>)
    requires node.ObjectNode? && Copies(node) && Keys(copies) == Keys(node.own)
    ensures Assigned(copies) == copies
  {
    assert forall i :: 0 <= i < |copies| ==> copies[i].0 == Keys(copies)[i] == node.own[i].0;
    AssignedAll(copies);
  }

  lemma FieldsMatch(own: seq<(string, Property)>, copies: seq<(string, Tree)>, step: Step)
    requires Distinct(Keys(own)) && Keys(copies) == Keys(own) && |copies| == |own|
    ensures step.Field? ==> (LookUp(copies, step.key).Some? <==> LookUp(own, step.key).Some?)
    ensures forall i :: 0 <= i < |own| && step == Field(own[i].0) ==> LookUp(copies, step.key) == Some(copies[i].1)
  {
    if step.Field? {
      SameKeysLookUp(own, copies, step.key);
    }
    forall i | 0 <= i < |own| && step == Field(own[i].0) ensures LookUp(copies, step.key) == Some(copies[i].1) {
      assert copies[i].0 == Keys(copies)[i] == own[i].0;
      LookUpAt(copies, i);
    }
  }

  lemma {:induction false} SameKeysLookUp<T, U>(a: seq<(string, T)>, b: seq<(string, U)>, key: string)
    requires Keys(a) == Keys(b)
    ensures LookUp(a, key).Some? <==> LookUp(b, key).Some?
  {
    if a != [] {
      assert a[0].0 == Keys(a)[0] == b[0].0;
      assert forall i :: 0 <= i < |a[1..]| ==> Keys(a[1..])[i] == Keys(a)[i + 1] == Keys(b[1..])[i];
      SameKeysLookUp(a[1..], b[1..], key);
    }
  }

  ghost predicate Copyable(g: map<nat, Node>, v: Value, above: set<nat>)
    requires Closed(g) && InHeap(g, v) && Accepts(g, v, above)
    decreases g.Keys - above
  {
    v.Ref? ==>
      && Copies(g[v.node])
      && forall i :: 0 <= i < |Own(g[v.node])| ==> Copyable(g, Own(g[v.node])[i].value, above + {v.node})
  }

  lemma NoClash(node: Node, copies: seq<(string, Tree)>)
    requires node.ObjectNode? && Copies(node) && Keys(copies) == Keys(node.own)
    ensures !Clashes(copies)
  {
    assert forall i :: 0 <= i < |copies| ==> copies[i].0 == Keys(copies)[i] == node.own[i].0;
  }

  /** Copies of all parts of a copyable node make its copy. */
  lemma CopyMade(g: map<nat, Node>, n: nat, above: set<nat>)
    requires Closed(g) && n in g && Accepts(g, Ref(n), above) && Copies(g[n])
    requires forall i :: 0 <= i < |Parts(g[n])| ==> DeepFrozenCopy(g, Parts(g[n])[i].1, above + {n}).Some?
    ensures DeepFrozenCopy(g, Ref(n), above).Some?
  {
    PartsAll(g[n]);
    var parts := Parts(g[n]);
    var copies := seq(|parts|, i requires 0 <= i < |parts| =>
      (parts[i].0, DeepFrozenCopy(g, parts[i].1, above + {n}).value));
    assert forall i :: 0 <= i < |copies| ==> Keys(copies)[i] == Keys(parts)[i];
    if g[n].ObjectNode? { NoClash(g[n], copies); }
  }

  /** A copyable node has a copy exactly when each of its properties has one. */
  lemma CopyExists(g: map<nat, Node>, n: nat, above: set<nat>)
    requires Closed(g) && n in g && Accepts(g, Ref(n), above) && Copies(g[n])
    ensures DeepFrozenCopy(g, Ref(n), above).Some?
       <==> forall i :: 0 <= i < |Own(g[n])| ==> DeepFrozenCopy(g, Own(g[n])[i].value, above + {n}).Some?
  {
    PartsAll(g[n]);
    if DeepFrozenCopy(g, Ref(n), above).Some? {
      var copies := CopyOf(g, n, above);
      forall i | 0 <= i < |Own(g[n])| ensures DeepFrozenCopy(g, Own(g[n])[i].value, above + {n}).Some? {
        assert Parts(g[n])[i].1 == Own(g[n])[i].value;
      }
    } else if forall i :: 0 <= i < |Own(g[n])| ==> DeepFrozenCopy(g, Own(g[n])[i].value, above + {n}).Some? {
      CopyMade(g, n, above);
    }
  }

  /** What a copied node is built from. */
  lemma CopyOf(g: map<nat, Node>, n: nat, above: set<nat>) returns (copies: seq<(string, Tree)>)
    requires Closed(g) && n in g && Accepts(g, Ref(n), above) && DeepFrozenCopy(g, Ref(n), above).Some?
    ensures DeepFrozenCopy(g, Ref(n), above).value == Built(g[n].ArrayNode?, copies)
    ensures |copies| == |Parts(g[n])| && Keys(copies) == Keys(Parts(g[n]))
    ensures forall i :: 0 <= i < |copies| ==> DeepFrozenCopy(g, Parts(g[n])[i].1, above + {n}) == Some(copies[i].1)
    ensures g[n].ArrayNode? ==> !g[n].prototype.Null?
    ensures g[n].ObjectNode? ==> !Clashes(copies)
  {
    var parts := Parts(g[n]);
    copies := seq(|parts|, i requires 0 <= i < |parts| =>
      (parts[i].0, DeepFrozenCopy(g, parts[i].1, above + {n}).value));
  }

  /** If no key is missing from the copy of an object, none of its properties was dropped. */
  lemma NothingDropped<T>(own: seq<(string, Property)>, copies: seq<(string, T)>)
    requires forall i :: 0 <= i < |own| ==> own[i].1.Data?
    requires Keys(copies) == Keys(Entries(own)) && |Assigned(copies)| == |own|
    ensures Copies(ObjectNode(Standard, false, own))
  {
    AssignedAll(copies);
    EntriesFewer(own);
    assert |copies| == |Keys(copies)| == |Entries(own)|;
    EntriesAll(own);
    forall i | 0 <= i < |own| ensures own[i].0 != "__proto__" {
      assert copies[i].0 == Keys(copies)[i] == Keys(Entries(own))[i] == own[i].0;
    }
  }

  /** Below a faithful copy's surface lies every property. */
  lemma SurfaceCopies(g: map<nat, Node>, n: nat, above: set<nat>)
    requires Closed(g) && n in g && Accepts(g, Ref(n), above) && Faithful(g, Ref(n), above)
    ensures Copies(g[n])
  {
    var copies := CopyOf(g, n, above);
    SurfaceTells(g[n], copies);
    assert TreeView(DeepFrozenCopy(g, Ref(n), above).value, []) == HeapView(g, Ref(n), []);
  }

  lemma SurfaceTells(node: Node, copies: seq<(string, Tree)>)
    requires forall i :: 0 <= i < |Own(node)| ==> Own(node)[i].Data?
    requires Keys(copies) == Keys(Parts(node)) && (node.ArrayNode? ==> !node.prototype.Null?)
    ensures TreeView(Built(node.ArrayNode?, copies), []) == Surface(node) ==> Copies(node)
  {
    if node.ObjectNode? && TreeView(Built(false, copies), []) == Surface(node) {
      assert forall i :: 0 <= i < |node.own| ==> node.own[i].1 == Own(node)[i];
      assert |Keys(Assigned(copies))| == |Keys(node.own)|;
      NothingDropped(node.own, copies);
    }
  }

  /** Along one step a copied node shows the copy of the property there. */
  lemma CopySteps(g: map<nat, Node>, n: nat, above: set<nat>, i: nat, rest: seq<Step>)
    requires Closed(g) && n in g && Accepts(g, Ref(n), above) && Copies(g[n])
    requires DeepFrozenCopy(g, Ref(n), above).Some? && i < |Own(g[n])|
    requires DeepFrozenCopy(g, Own(g[n])[i].value, above + {n}).Some?
    ensures var path := [StepTo(g[n], i)] + rest;
            && TreeView(DeepFrozenCopy(g, Ref(n), above).value, path)
               == TreeView(DeepFrozenCopy(g, Own(g[n])[i].value, above + {n}).value, rest)
            && HeapView(g, Ref(n), path) == HeapView(g, Own(g[n])[i].value, rest)
  {
    var copies := CopyOf(g, n, above);
    PartsAll(g[n]);
    BuiltMatches(g[n], copies, StepTo(g[n], i));
    StepsReach(g[n], i);
    assert ([StepTo(g[n], i)] + rest)[1..] == rest;
    assert Parts(g[n])[i].1 == Own(g[n])[i].value;
  }

  lemma CopySurface(g: map<nat, Node>, n: nat, above: set<nat>, path: seq<Step>)
    requires Closed(g) && n in g && Accepts(g, Ref(n), above) && Copies(g[n])
    requires DeepFrozenCopy(g, Ref(n), above).Some?
    requires path == [] || PropertyAt(g[n], path[0]).None?
    ensures TreeView(DeepFrozenCopy(g, Ref(n), above).value, path) == HeapView(g, Ref(n), path)
  {
    var copies := CopyOf(g, n, above);
    PartsAll(g[n]);
    BuiltMatches(g[n], copies, if path == [] then Index(0) else path[0]);
  }

  lemma {:induction false} FaithfulExactly(g: map<nat, Node>, v: Value, above: set<nat>)
    requires Closed(g) && InHeap(g, v) && Accepts(g, v, above)
    ensures Faithful(g, v, above) <==> Copyable(g, v, above)
    decreases g.Keys - above
  {
    if v.Ref? {
      var n := v.node;
      forall i | 0 <= i < |Own(g[n])|
        ensures Faithful(g, Own(g[n])[i].value, above + {n}) <==> Copyable(g, Own(g[n])[i].value, above + {n})
      {
        FaithfulExactly(g, Own(g[n])[i].value, above + {n});
      }
      if Faithful(g, v, above) {
        SurfaceCopies(g, n, above);
        FaithfulParts(g, n, above);
      } else if Copyable(g, v, above) {
        PartsFaithful(g, n, above);
      }
    }
  }

  lemma FaithfulParts(g: map<nat, Node>, n: nat, above: set<nat>)
    requires Closed(g) && n in g && Accepts(g, Ref(n), above) && Copies(g[n]) && Faithful(g, Ref(n), above)
    ensures forall i :: 0 <= i < |Own(g[n])| ==> Faithful(g, Own(g[n])[i].value, above + {n})
  {
    CopyExists(g, n, above);
    forall i | 0 <= i < |Own(g[n])| ensures Faithful(g, Own(g[n])[i].value, above + {n}) {
      var child := Own(g[n])[i].value;
      forall rest ensures TreeView(DeepFrozenCopy(g, child, above + {n}).value, rest) == HeapView(g, child, rest) {
        CopySteps(g, n, above, i, rest);
        var path := [StepTo(g[n], i)] + rest;
        assert TreeView(DeepFrozenCopy(g, Ref(n), above).value, path) == HeapView(g, Ref(n), path);
      }
    }
  }

  lemma PartsFaithful(g: map<nat, Node>, n: nat, above: set<nat>)
    requires Closed(g) && n in g && Accepts(g, Ref(n), above) && Copies(g[n])
    requires forall i :: 0 <= i < |Own(g[n])| ==> Faithful(g, Own(g[n])[i].value, above + {n})
    ensures Faithful(g, Ref(n), above)
  {
    CopyExists(g, n, above);
    forall path ensures TreeView(DeepFrozenCopy(g, Ref(n), above).value, path) == HeapView(g, Ref(n), path) {
      if path == [] || PropertyAt(g[n], path[0]).None? {
        CopySurface(g, n, above, path);
      } else {
        var i := StepIsTo(g[n], path[0]);
        CopySteps(g, n, above, i, path[1..]);
        assert path == [path[0]] + path[1..];
        assert Faithful(g, Own(g[n])[i].value, above + {n});
      }
    }
  }

  // ----- over everything reachable ------------------------------------------------------

  lemma {:induction false} CopyableWalks(g: map<nat, Node>, w: seq<nat>, above: set<nat>)
    requires Closed(g) && Walk(g, w) && Accepts(g, Ref(w[0]), above) && Copyable(g, Ref(w[0]), above)
    ensures Copies(g[w[|w| - 1]])
  {
    if |w| > 1 {
      WalkTail(g, w);
      assert Edge(g, w[0], w[1]);
      CopyableWalks(g, w[1..], above + {w[0]});
    }
  }

  lemma {:induction false} UncopyableWalk(g: map<nat, Node>, n: nat, above: set<nat>) returns (w: seq<nat>)
    requires Closed(g) && n in g && Accepts(g, Ref(n), above) && !Copyable(g, Ref(n), above)
    ensures Walk(g, w) && w[0] == n && !Copies(g[w[|w| - 1]])
    decreases g.Keys - above
  {
    w := [n];
    if Copies(g[n]) {
      var i :| 0 <= i < |Own(g[n])| && !Copyable(g, Own(g[n])[i].value, above + {n});
      var tail := UncopyableWalk(g, Own(g[n])[i].value.node, above + {n});
      assert Edge(g, n, tail[0]);
      w := [n] + tail;
      WalkCons(g, n, tail);
    }
  }

  /**
   An accepted object's frozen copy exists and shows what the heap shows, along
   every path, exactly when no reachable object has a hidden or `__proto__`
   property and every reachable array has its prototype and no stray key.
   */
  lemma CopyFaithful(g: map<nat, Node>, root: nat)
    requires Closed(g) && root in g && Accepts(g, Ref(root), {})
    ensures Faithful(g, Ref(root), {}) <==> forall n :: Reachable(g, root, n) ==> n in g && Copies(g[n])
  {
    FaithfulExactly(g, Ref(root), {});
    if Copyable(g, Ref(root), {}) {
      forall n | Reachable(g, root, n) ensures n in g && Copies(g[n]) {
        var w :| WalkFrom(g, w, root, n);
        CopyableWalks(g, w, {});
      }
    } else {
      var w := UncopyableWalk(g, root, {});
      assert WalkFrom(g, w, root, w[|w| - 1]);
      assert Reachable(g, root, w[|w| - 1]);
    }
  }

  // ----- when copying throws --------------------------------------------------------------

  /** The object shows an own entry with this key and value. */
  ghost predicate Shows(node: Node, key: string, v: Value)
    requires node.ObjectNode?
  {
    (key, Data(v, true)) in node.own
  }

  ghost predicate ShowsKey(node: Node, key: string)
    requires node.ObjectNode?
  {
    exists v :: Shows(node, key, v)
  }

  /**
   An object whose prototype is the frozen copy of `m` inherits `key` read-only: from
   an array its indices and its length, from an object its shown keys and, along
   shown `__proto__` objects, theirs.
   */
  ghost predicate Inherits(g: map<nat, Node>, m: nat, key: string, above: set<nat>)
    requires Closed(g) && m in g && Accepts(g, Ref(m), above)
    decreases g.Keys - above
  {
    if g[m].ArrayNode? then key == "length" || exists i :: 0 <= i < |g[m].elements| && key == Decimal(i)
    else
      || (key != "__proto__" && ShowsKey(g[m], key))
      || exists p :: ProtoAt(g, m, p, above) && Inherits(g, p, key, above + {m})
  }

  ghost predicate ProtoAt(g: map<nat, Node>, m: nat, p: nat, above: set<nat>)
    requires Closed(g) && m in g && g[m].ObjectNode?
  {
    p in g && Shows(g[m], "__proto__", Ref(p)) && Accepts(g, Ref(p), above + {m})
  }

  lemma {:induction false} EntriesExact(own: seq<(string, Property)>, key: string, v: Value)
    requires forall i :: 0 <= i < |own| ==> own[i].1.Data?
    ensures (key, v) in Entries(own) <==> (key, Data(v, true)) in own
  {
    if own != [] {
      var n := |own| - 1;
      EntriesExact(own[..n], key, v);
      assert own == own[..n] + [own[n]];
    }
  }

  lemma {:induction false} AssignedExact<T>(entries: seq<(string, T)>, e: (string, T))
    ensures e in Assigned(entries) <==> e in entries && e.0 != "__proto__"
  {
    if entries != [] {
      var n := |entries| - 1;
      AssignedExact(entries[..n], e);
      assert entries == entries[..n] + [entries[n]];
    }
  }

  lemma {:induction false} ProtoOfFound(entries: seq<(string, Tree)>)
    requires ProtoOf(entries).Some?
    ensures ("__proto__", ProtoOf(entries).value) in entries && !ProtoOf(entries).value.Leaf?
  {
    assert entries == [entries[0]] + entries[1..];
    if !(entries[0].0 == "__proto__" && !entries[0].1.Leaf?) {
      ProtoOfFound(entries[1..]);
    }
  }

  lemma {:induction false} ProtoOfAt(entries: seq<(string, Tree)>, i: nat)
    requires Distinct(Keys(entries)) && i < |entries| && entries[i].0 == "__proto__" && !entries[i].1.Leaf?
    ensures ProtoOf(entries) == Some(entries[i].1)
  {
    if i > 0 {
      var rest := entries[1..];
      assert Keys(entries)[0] != Keys(entries)[i];
      assert forall a :: 0 <= a < |rest| ==> Keys(rest)[a] == Keys(entries)[a + 1];
      ProtoOfAt(rest, i - 1);
    }
  }

  lemma {:induction false} EntriesDistinct(own: seq<(string, Property)>)
    requires Distinct(Keys(own)) && forall i :: 0 <= i < |own| ==> own[i].1.Data?
    ensures Distinct(Keys(Entries(own)))
  {
    if own != [] {
      var n := |own| - 1;
      var front, last := own[..n], own[n];
      assert forall i :: 0 <= i < n ==> Keys(front)[i] == Keys(own)[i];
      EntriesDistinct(front);
      if last.1.enumerable {
        EntriesAreOwn(front);
        var es := Entries(front);
        forall i | 0 <= i < |es| ensures Keys(es)[i] != last.0 {
          assert es[i] in es && (es[i].0, Data(es[i].1, true)) in front;
          var j :| 0 <= j < n && front[j] == (es[i].0, Data(es[i].1, true));
          assert Keys(own)[j] != Keys(own)[n];
        }
        KeysSnoc(es, (last.0, last.1.value));
      }
    }
  }

  lemma KeysSnoc<T>(entries: seq<(string, T)>, e: (string, T))
    requires Distinct(Keys(entries)) && forall i :: 0 <= i < |entries| ==> Keys(entries)[i] != e.0
    ensures Distinct(Keys(entries + [e]))
  {
    assert Keys(entries + [e]) == Keys(entries) + [e.0];
  }

  lemma LockedBuilt(copies: seq<(string, Tree)>, key: string)
    ensures key in Locked(Built(false, copies))
       <==> || (key != "__proto__" && key in Keys(copies))
            || (ProtoOf(copies).Some? && key in Locked(ProtoOf(copies).value))
  {
    var fields := Assigned(copies);
    if i :| 0 <= i < |fields| && fields[i].0 == key {
      AssignedExact(copies, fields[i]);
      var j :| 0 <= j < |copies| && copies[j] == fields[i];
      assert Keys(copies)[j] == key;
    }
    if key != "__proto__" && key in Keys(copies) {
      var j :| 0 <= j < |copies| && Keys(copies)[j] == key;
      AssignedExact(copies, copies[j]);
      var i :| 0 <= i < |fields| && fields[i] == copies[j];
    }
  }

  /** The copy of an object is not a primitive. */
  lemma CopyNotLeaf(g: map<nat, Node>, n: nat, above: set<nat>)
    requires Closed(g) && n in g && Accepts(g, Ref(n), above) && DeepFrozenCopy(g, Ref(n), above).Some?
    ensures !DeepFrozenCopy(g, Ref(n), above).value.Leaf?
  {
    var copies := CopyOf(g, n, above);
  }

  lemma KeysShown(node: Node, copies: seq<(string, Tree)>, key: string)
    requires node.ObjectNode? && (forall i :: 0 <= i < |node.own| ==> node.own[i].1.Data?)
    requires Keys(copies) == Keys(Entries(node.own))
    ensures key in Keys(copies) <==> ShowsKey(node, key)
  {
    var es := Entries(node.own);
    if key in Keys(es) {
      var i :| 0 <= i < |es| && Keys(es)[i] == key;
      EntriesExact(node.own, key, es[i].1);
      assert Shows(node, key, es[i].1);
    }
    if v :| Shows(node, key, v) {
      EntriesExact(node.own, key, v);
      var i :| 0 <= i < |es| && es[i] == (key, v);
      assert Keys(es)[i] == key;
    }
  }

  lemma ObjectAllData(g: map<nat, Node>, n: nat, above: set<nat>)
    requires Closed(g) && n in g && Accepts(g, Ref(n), above) && g[n].ObjectNode?
    ensures forall i :: 0 <= i < |g[n].own| ==> g[n].own[i].1.Data?
    ensures forall key, v :: Shows(g[n], key, v) ==> InHeap(g, v) && Accepts(g, v, above + {n})
  {
    assert forall i :: 0 <= i < |g[n].own| ==> Own(g[n])[i] == g[n].own[i].1;
    forall key, v | Shows(g[n], key, v) ensures InHeap(g, v) && Accepts(g, v, above + {n}) {
      var i :| 0 <= i < |g[n].own| && g[n].own[i] == (key, Data(v, true));
      assert Own(g[n])[i].value == v;
    }
  }

  /** Copies of what an object shows, entry by entry. */
  ghost predicate AreCopies(g: map<nat, Node>, n: nat, above: set<nat>, copies: seq<(string, Tree)>)
    requires Closed(g) && n in g && Accepts(g, Ref(n), above)
  {
    && |copies| == |Parts(g[n])|
    && forall i :: 0 <= i < |copies| ==> IsCopyAt(g, n, above, copies, i)
  }

  ghost predicate IsCopyAt(g: map<nat, Node>, n: nat, above: set<nat>, copies: seq<(string, Tree)>, i: int)
    requires Closed(g) && n in g && Accepts(g, Ref(n), above)
    requires 0 <= i < |copies| == |Parts(g[n])|
  {
    && copies[i].0 == Parts(g[n])[i].0
    && DeepFrozenCopy(g, Parts(g[n])[i].1, above + {n}) == Some(copies[i].1)
  }

  lemma CopiesKeys(g: map<nat, Node>, n: nat, above: set<nat>, copies: seq<(string, Tree)>)
    requires Closed(g) && n in g && Accepts(g, Ref(n), above) && AreCopies(g, n, above, copies)
    ensures Keys(copies) == Keys(Parts(g[n]))
  {
    forall i | 0 <= i < |copies| ensures Keys(copies)[i] == Keys(Parts(g[n]))[i] {
      assert IsCopyAt(g, n, above, copies, i);
    }
  }

  /** A shown `__proto__` object gives the copy its copy as prototype. */
  lemma ProtoGiven(g: map<nat, Node>, n: nat, above: set<nat>, copies: seq<(string, Tree)>, p: nat)
    requires Closed(g) && n in g && Accepts(g, Ref(n), above) && g[n].ObjectNode? && AreCopies(g, n, above, copies)
    requires ProtoAt(g, n, p, above)
    ensures ProtoOf(copies).Some? && DeepFrozenCopy(g, Ref(p), above + {n}) == ProtoOf(copies)
  {
    ObjectAllData(g, n, above);
    var es := Entries(g[n].own);
    EntriesExact(g[n].own, "__proto__", Ref(p));
    var i :| 0 <= i < |es| && es[i] == ("__proto__", Ref(p));
    assert IsCopyAt(g, n, above, copies, i);
    CopyNotLeaf(g, p, above + {n});
    CopiesKeys(g, n, above, copies);
    EntriesDistinct(g[n].own);
    ProtoOfAt(copies, i);
  }

  /** A copy's prototype comes from such an object. */
  lemma ProtoTaken(g: map<nat, Node>, n: nat, above: set<nat>, copies: seq<(string, Tree)>) returns (p: nat)
    requires Closed(g) && n in g && Accepts(g, Ref(n), above) && g[n].ObjectNode? && AreCopies(g, n, above, copies)
    requires ProtoOf(copies).Some?
    ensures ProtoAt(g, n, p, above)
  {
    ObjectAllData(g, n, above);
    var es := Entries(g[n].own);
    ProtoOfFound(copies);
    var i :| 0 <= i < |copies| && copies[i] == ("__proto__", ProtoOf(copies).value);
    assert IsCopyAt(g, n, above, copies, i);
    var v := es[i].1;
    assert es[i] == ("__proto__", v) && es[i] in es;
    EntriesExact(g[n].own, "__proto__", v);
    assert Shows(g[n], "__proto__", v);
    assert v.Ref?;
    p := v.node;
  }

  /** What a copy passes on read-only is what the heap object passes on. */
  lemma {:induction false} LockedExact(g: map<nat, Node>, m: nat, above: set<nat>, key: string)
    requires Closed(g) && m in g && Accepts(g, Ref(m), above) && DeepFrozenCopy(g, Ref(m), above).Some?
    ensures key in Locked(DeepFrozenCopy(g, Ref(m), above).value) <==> Inherits(g, m, key, above)
    decreases g.Keys - above
  {
    var copies := CopyOf(g, m, above);
    if g[m].ObjectNode? {
      CopyOfCopies(g, m, above, copies);
      LockedBuilt(copies, key);
      ObjectAllData(g, m, above);
      KeysShown(g[m], copies, key);
      if ProtoOf(copies).Some? {
        var p := ProtoTaken(g, m, above, copies);
        ProtoGiven(g, m, above, copies, p);
        LockedExact(g, p, above + {m}, key);
      }
      forall p | ProtoAt(g, m, p, above) && Inherits(g, p, key, above + {m})
        ensures ProtoOf(copies).Some? && key in Locked(ProtoOf(copies).value)
      {
        ProtoGiven(g, m, above, copies, p);
        LockedExact(g, p, above + {m}, key);
      }
    }
  }

  lemma CopyOfCopies(g: map<nat, Node>, n: nat, above: set<nat>, copies: seq<(string, Tree)>)
    requires Closed(g) && n in g && Accepts(g, Ref(n), above)
    requires |copies| == |Parts(g[n])| && Keys(copies) == Keys(Parts(g[n]))
    requires forall i :: 0 <= i < |copies| ==> DeepFrozenCopy(g, Parts(g[n])[i].1, above + {n}) == Some(copies[i].1)
    ensures AreCopies(g, n, above, copies)
  {
    forall i | 0 <= i < |copies| ensures IsCopyAt(g, n, above, copies, i) {
      assert Keys(copies)[i] == Keys(Parts(g[n]))[i];
    }
  }

  // ----- the inputs it is not faithful on -----------------------------------------------

  /** A heap of one node that holds only primitives. */
  ghost predicate IsLone(node: Node) {
    DistinctKeys(node) && NodeOk(node) && forall i :: 0 <= i < |Own(node)| ==> Own(node)[i].value.Primitive?
  }

  /** A lone accepted node is copied faithfully exactly when nothing is hidden, stray, `__proto__` or unmappable. */
  lemma LoneFaithful(node: Node)
    requires IsLone(node)
    ensures Closed(map[0 := node]) && Accepts(map[0 := node], Ref(0), {})
    ensures Faithful(map[0 := node], Ref(0), {}) <==> Copies(node)
  {
    var g := map[0 := node];
    FaithfulExactly(g, Ref(0), {});
  }

  /** Copies of primitives never clash, so a lone object always has a copy, built from its entries. */
  lemma LoneCopy(node: Node, copies: seq<(string, Tree)>)
    requires IsLone(node) && node.ObjectNode? && Closed(map[0 := node]) && Accepts(map[0 := node], Ref(0), {})
    requires |copies| == |Parts(node)|
    requires forall i :: 0 <= i < |copies| ==>
      Parts(node)[i].1.Primitive? && copies[i] == (Parts(node)[i].0, Leaf(Parts(node)[i].1.text))
    ensures DeepFrozenCopy(map[0 := node], Ref(0), {}) == Some(Built(false, copies))
  {
    var g, parts := map[0 := node], Parts(node);
    var made := seq(|parts|, i requires 0 <= i < |parts| => (parts[i].0, DeepFrozenCopy(g, parts[i].1, {} + {0}).value));
    assert made == copies;
    assert !Clashes(copies);
  }

  /** JSON text can carry an own `__proto__` key; the copy loses it and keeps its neighbours. */
  lemma ProtoKeyLost(v: Value, key: string, w: Value)
    requires v.Primitive? && w.Primitive? && key != "__proto__"
    ensures var g := map[0 := ObjectNode(Standard, false, [("__proto__", Data(v, true)), (key, Data(w, true))])];
            && Closed(g) && Accepts(g, Ref(0), {}) && !Faithful(g, Ref(0), {})
            && DeepFrozenCopy(g, Ref(0), {}) == Some(ObjectTree([(key, Leaf(w.text))], None))
  {
    var own := [("__proto__", Data(v, true)), (key, Data(w, true))];
    var node := ObjectNode(Standard, false, own);
    assert Keys(own) == ["__proto__", key] && Own(node) == [Data(v, true), Data(w, true)];
    assert IsLone(node);
    assert !Copies(node) by { assert own[0].0 == "__proto__"; }
    LoneFaithful(node);
    EntriesAll(own);
    var copies := [("__proto__", Leaf(v.text)), (key, Leaf(w.text))];
    LoneCopy(node, copies);
    BuiltWithoutProto(Leaf(v.text), key, Leaf(w.text));
  }

  lemma BuiltOne(key: string, t: Tree)
    requires key != "__proto__"
    ensures Built(false, [(key, t)]) == ObjectTree([(key, t)], None)
  {
    var copies := [(key, t)];
    assert copies[0] == (key, t) && copies[..0] == [] && copies[1..] == [];
    assert Assigned(copies[..0]) == [];
    assert Assigned(copies) == Assigned(copies[..0]) + [(key, t)];
    assert ProtoOf(copies[1..]) == None && ProtoOf(copies) == ProtoOf(copies[1..]);
  }

  lemma BuiltWithoutProto(x: Tree, key: string, t: Tree)
    requires x.Leaf? && key != "__proto__"
    ensures Built(false, [("__proto__", x), (key, t)]) == ObjectTree([(key, t)], None)
  {
    var copies := [("__proto__", x), (key, t)];
    BuiltOne(key, t);
    assert copies[1..] == [(key, t)];
    var front := copies[..1];
    assert front == [("__proto__", x)] && front[..0] == [];
    assert Assigned(front) == [];
    assert copies[1] == (key, t);
    assert Assigned(copies) == Assigned(front) + [(key, t)];
  }

  lemma EntriesHidden(key: string, v: Value, other: string, w: Value)
    ensures Entries([(key, Data(v, false)), (other, Data(w, true))]) == [(other, w)]
  {
    var own := [(key, Data(v, false)), (other, Data(w, true))];
    var front := own[..1];
    assert front == [(key, Data(v, false))] && front[..0] == [];
    assert Entries(front) == [];
    assert own[1] == (other, Data(w, true));
    assert Entries(own) == Entries(front) + [(other, w)];
  }

  /** A property that is not enumerable passes the gate; the copy loses it and keeps its neighbours. */
  lemma HiddenLost(key: string, v: Value, other: string, w: Value)
    requires v.Primitive? && w.Primitive? && key != other && other != "__proto__"
    ensures var g := map[0 := ObjectNode(Standard, false, [(key, Data(v, false)), (other, Data(w, true))])];
            && Closed(g) && Accepts(g, Ref(0), {}) && !Faithful(g, Ref(0), {})
            && DeepFrozenCopy(g, Ref(0), {}) == Some(ObjectTree([(other, Leaf(w.text))], None))
  {
    var own := [(key, Data(v, false)), (other, Data(w, true))];
    var node := ObjectNode(Standard, false, own);
    assert Keys(own) == [key, other] && Own(node) == [Data(v, false), Data(w, true)];
    assert IsLone(node);
    assert !Copies(node) by { assert !own[0].1.enumerable; }
    LoneFaithful(node);
    EntriesHidden(key, v, other, w);
    LoneCopy(node, [(other, Leaf(w.text))]);
    BuiltOne(other, Leaf(w.text));
  }

  /** A number key beyond every array index passes the gate; the copy loses it. */
  lemma StrayLost(v: Value)
    requires v.Primitive?
    ensures var g := map[0 := ArrayNode(Standard, false, [], [("4294967295", Data(v, true))])];
            Closed(g) && Accepts(g, Ref(0), {}) && !Faithful(g, Ref(0), {})
  {
    var node := ArrayNode(Standard, false, [], [("4294967295", Data(v, true))]);
    assert Own(node) == [Data(v, true)];
    LoneFaithful(node);
  }

  /** An array without a prototype passes the gate; copying it throws. */
  lemma BareArrayThrows()
    ensures var g := map[0 := ArrayNode(Null, false, [], [])];
            Closed(g) && Accepts(g, Ref(0), {}) && DeepFrozenCopy(g, Ref(0), {}).None?
  {
    LoneFaithful(ArrayNode(Null, false, [], []));
  }

  /** After a `__proto__` object the node shows a key that this object passes on read-only. */
  ghost predicate ClashAt(g: map<nat, Node>, n: nat, above: set<nat>, i: int, j: int)
    requires Closed(g) && n in g && Accepts(g, Ref(n), above) && g[n].ObjectNode?
  {
    && 0 <= i < j < |Parts(g[n])| && Parts(g[n])[i].0 == "__proto__" && Parts(g[n])[i].1.Ref?
    && Inherits(g, Parts(g[n])[i].1.node, Parts(g[n])[j].0, above + {n})
  }

  /**
   Given copies of everything an object shows, copying it throws exactly when it
   shows, after a `__proto__` object, a key that this object passes on read-only.
   */
  lemma ThrowsExactly(g: map<nat, Node>, n: nat, above: set<nat>, copies: seq<(string, Tree)>)
    requires Closed(g) && n in g && Accepts(g, Ref(n), above) && g[n].ObjectNode? && AreCopies(g, n, above, copies)
    ensures DeepFrozenCopy(g, Ref(n), above).None? <==> exists i, j :: ClashAt(g, n, above, i, j)
  {
    ThrowsOnClash(g, n, above, copies);
    forall i, j | 0 <= i < j < |copies| ensures ClashesAt(copies, i, j) <==> ClashAt(g, n, above, i, j) {
      ClashReads(g, n, above, copies, i, j);
    }
  }

  lemma ClashReads(g: map<nat, Node>, n: nat, above: set<nat>, copies: seq<(string, Tree)>, i: nat, j: nat)
    requires Closed(g) && n in g && Accepts(g, Ref(n), above) && g[n].ObjectNode? && AreCopies(g, n, above, copies)
    requires i < j < |copies|
    ensures ClashesAt(copies, i, j) <==> ClashAt(g, n, above, i, j)
  {
    assert IsCopyAt(g, n, above, copies, i) && IsCopyAt(g, n, above, copies, j);
    var v := Parts(g[n])[i].1;
    if v.Ref? { LockedExact(g, v.node, above + {n}, copies[j].0); }
  }

  lemma ThrowsOnClash(g: map<nat, Node>, n: nat, above: set<nat>, copies: seq<(string, Tree)>)
    requires Closed(g) && n in g && Accepts(g, Ref(n), above) && g[n].ObjectNode? && AreCopies(g, n, above, copies)
    ensures DeepFrozenCopy(g, Ref(n), above).None? <==> Clashes(copies)
  {
    var parts := Parts(g[n]);
    forall i | 0 <= i < |parts| ensures DeepFrozenCopy(g, parts[i].1, above + {n}).Some? {
      assert IsCopyAt(g, n, above, copies, i);
    }
    var made := seq(|parts|, i requires 0 <= i < |parts| => (parts[i].0, DeepFrozenCopy(g, parts[i].1, above + {n}).value));
    forall i | 0 <= i < |parts| ensures made[i] == copies[i] {
      assert IsCopyAt(g, n, above, copies, i);
    }
    assert made == copies;
  }

  /** An object with an own `__proto__` object, both with a key `x`. */
  ghost function TwoNodes(v: Value, w: Value): map<nat, Node> {
    map[0 := ObjectNode(Standard, false, [("__proto__", Data(Ref(1), true)), ("x", Data(w, true))]),
        1 := ObjectNode(Standard, false, [("x", Data(v, true))])]
  }

  lemma TwoNodesAccepted(v: Value, w: Value)
    requires v.Primitive? && w.Primitive?
    ensures Closed(TwoNodes(v, w)) && Accepts(TwoNodes(v, w), Ref(1), {} + {0}) && Accepts(TwoNodes(v, w), Ref(0), {})
  {
    var g := TwoNodes(v, w);
    assert Own(g[1]) == [Data(v, true)] && Own(g[0]) == [Data(Ref(1), true), Data(w, true)];
    assert Keys(g[0].own) == ["__proto__", "x"];
    assert Closed(g);
    assert Accepts(g, Ref(1), {} + {0});
  }

  /** The smallest heap that clashes: the prototype is frozen, so assigning a key it has throws. */
  lemma FrozenPrototypeThrows(v: Value, w: Value)
    requires v.Primitive? && w.Primitive?
    ensures Closed(TwoNodes(v, w)) && Accepts(TwoNodes(v, w), Ref(0), {})
    ensures DeepFrozenCopy(TwoNodes(v, w), Ref(0), {}).None?
  {
    TwoNodesAccepted(v, w);
    TwoNodesClash(TwoNodes(v, w), v, w);
  }

  lemma TwoNodesClash(g: map<nat, Node>, v: Value, w: Value)
    requires v.Primitive? && w.Primitive? && 0 in g && 1 in g
    requires g[0] == ObjectNode(Standard, false, [("__proto__", Data(Ref(1), true)), ("x", Data(w, true))])
    requires g[1] == ObjectNode(Standard, false, [("x", Data(v, true))])
    requires Closed(g) && Accepts(g, Ref(1), {} + {0}) && Accepts(g, Ref(0), {})
    ensures DeepFrozenCopy(g, Ref(0), {}).None?
  {
    EntriesAll(g[0].own);
    CopyExists(g, 1, {} + {0});
    var copies := [("__proto__", DeepFrozenCopy(g, Ref(1), {} + {0}).value), ("x", Leaf(w.text))];
    assert IsCopyAt(g, 0, {}, copies, 0) && IsCopyAt(g, 0, {}, copies, 1);
    ThrowsExactly(g, 0, {}, copies);
    assert Shows(g[1], "x", v);
    assert ClashAt(g, 0, {}, 0, 1);
  }
}
