// The library's heap: nodes, C string buffers, the allocator, and the error pointer. A ghost
// tree mirrors the nodes reachable from one node and says which objects it owns.
module Memory {
  import opened Bytes

  const TYPE_FALSE: int := 0
  const TYPE_TRUE: int := 1
  const TYPE_NULL: int := 2
  const TYPE_NUMBER: int := 3
  const TYPE_STRING: int := 4
  const TYPE_ARRAY: int := 5
  const TYPE_OBJECT: int := 6
  const IS_REFERENCE: int := 256

  // The cJSON structure; name is its member called string.
  class Node {
    var next: Node?
    var prev: Node?
    var child: Node?
    var typ: int
    var valuestring: array?<byte>
    var valueint: int
    var valuedouble: real
    var name: array?<byte>

    constructor ()
      ensures next == null && prev == null && child == null
      ensures typ == 0 && valuestring == null && valueint == 0 && valuedouble == 0.0 && name == null
    {
      next, prev, child := null, null, null;
      typ, valuestring, valueint, valuedouble, name := 0, null, 0, 0.0, null;
    }
  }

  // A type word with the reference flag.
  predicate IsRef(typ: int) {
    typ / IS_REFERENCE % 2 == 1
  }

  // a holds the C string chars.
  ghost predicate CString(a: array<byte>, chars: bytes)
    reads a
  {
    |chars| < a.Length && a[..|chars|] == chars && a[|chars|] == 0 && NulFree(chars)
  }

  // The static state of the library. live is the set of objects handed out and not yet freed;
  // faults counts the allocations that failed. A reliable allocator never fails.
  class Library {
    const reliable: bool
    ghost var live: set<object>
    ghost var faults: nat
    var ep: Option<nat>

    constructor (reliable: bool)
      ensures this.reliable == reliable && live == {} && faults == 0 && ep == None
    {
      this.reliable := reliable;
      live, faults, ep := {}, 0, None;
    }

    method Admit() returns (ok: bool)
      ensures reliable ==> ok
    {
      if reliable {
        ok := true;
      } else {
        ok := *;
      }
    }

    // cJSON_New_Item: a zeroed node, or null when the allocation fails.
    method NewItem() returns (n: Node?)
      modifies this`live, this`faults
      ensures n == null ==> !reliable && live == old(live) && faults == old(faults) + 1
      ensures n != null ==> fresh(n) && live == old(live) + {n} && faults == old(faults)
      ensures n != null ==> n.next == null && n.prev == null && n.child == null && n.typ == 0
      ensures n != null ==> n.valuestring == null && n.valueint == 0 && n.valuedouble == 0.0 && n.name == null
    {
      var ok := Admit();
      if ok {
        n := new Node();
        live := live + {n};
      } else {
        n := null;
        faults := faults + 1;
      }
    }

    // malloc of a byte buffer; its bytes are arbitrary.
    method NewBytes(size: nat) returns (a: array?<byte>)
      modifies this`live, this`faults
      ensures a == null ==> !reliable && live == old(live) && faults == old(faults) + 1
      ensures a != null ==> fresh(a) && a.Length == size && live == old(live) + {a} && faults == old(faults)
    {
      var ok := Admit();
      if ok {
        a := new byte[size];
        live := live + {a};
      } else {
        a := null;
        faults := faults + 1;
      }
    }

    // malloc and memset of a table of string pointers.
    method NewTable(size: nat) returns (a: array?<array?<byte>>)
      modifies this`live, this`faults
      ensures a == null ==> !reliable && live == old(live) && faults == old(faults) + 1
      ensures a != null ==> fresh(a) && a.Length == size && live == old(live) + {a} && faults == old(faults)
      ensures a != null ==> forall i :: 0 <= i < size ==> a[i] == null
    {
      var ok := Admit();
      if ok {
        a := new array?<byte>[size](_ => null);
        live := live + {a};
      } else {
        a := null;
        faults := faults + 1;
      }
    }

    // free: only a live object may be freed, and nothing is known of its contents afterwards.
    method FreeNode(n: Node)
      requires n in live
      modifies this`live, n
      ensures live == old(live) - {n}
    {
      live := live - {n};
      n.next, n.prev, n.child := *, *, *;
      n.typ, n.valuestring, n.valueint, n.valuedouble, n.name := *, *, *, *, *;
    }

    method FreeBytes(a: array<byte>)
      requires a in live
      modifies this`live, a
      ensures live == old(live) - {a}
    {
      live := live - {a};
      if a.Length > 0 {
        a[0] := *;
      }
    }

    method FreeTable(a: array<array?<byte>>)
      requires a in live
      modifies this`live, a
      ensures live == old(live) - {a}
    {
      live := live - {a};
      if a.Length > 0 {
        a[0] := *;
      }
    }

    // cJSON_strdup
    method StrDup(text: bytes) returns (a: array?<byte>)
      requires NulFree(text)
      modifies this`live, this`faults
      ensures a == null ==> !reliable && live == old(live) && faults == old(faults) + 1
      ensures a != null ==> fresh(a) && live == old(live) + {a} && faults == old(faults)
      ensures a != null ==> a.Length == |text| + 1 && CString(a, text)
    {
      a := NewBytes(|text| + 1);
      if a != null {
        CopyIn(a, 0, text);
      }
    }
  }

  // strcpy: the bytes and the terminator; what stands before them stays.
  method CopyIn(a: array<byte>, at: nat, text: bytes)
    requires at + |text| < a.Length
    modifies a
    ensures a[..at] == old(a[..at]) && a[at..at + |text|] == text && a[at + |text|] == 0
  {
    var i := 0;
    while i < |text|
      invariant 0 <= i <= |text|
      invariant a[..at] == old(a[..at]) && a[at..at + i] == text[..i]
    {
      a[at + i] := text[i];
      i := i + 1;
    }
    a[at + i] := 0;
  }

  // ---- The ghost mirror ----

  datatype Buf = NoBuf | Buf(arr: array<byte>, chars: bytes)

  ghost function BufObjs(b: Buf): set<object> {
    if b.Buf? then {b.arr} else {}
  }

  ghost predicate HoldsBuf(b: Buf, a: array?<byte>)
    reads BufObjs(b)
  {
    match b
    case NoBuf => a == null
    case Buf(arr, chars) => a == arr && CString(arr, chars)
  }

  function BufText(b: Buf): Option<bytes> {
    if b.Buf? then Some(b.chars) else None
  }

  datatype Tree = Tree(node: Node, typ: int, ival: int, num: real, text: Buf, name: Buf, kids: seq<Tree>)

  // Whether the contents of t count: always when deep, else only if t is no reference.
  predicate Counts(t: Tree, deep: bool) {
    deep || !IsRef(t.typ)
  }

  // The objects of t besides its node and its name: its text and its children. A reference
  // shares them with the item it refers to, so it does not own them.
  ghost function Inner(t: Tree, deep: bool): set<object>
    decreases t, 0
  {
    if Counts(t, deep) then BufObjs(t.text) + FootAll(t.kids, deep) else {}
  }

  ghost function Foot(t: Tree, deep: bool): set<object>
    decreases t, 1
  {
    {t.node} + BufObjs(t.name) + Inner(t, deep)
  }

  ghost function FootAll(ts: seq<Tree>, deep: bool): set<object>
    decreases ts, 0
  {
    if |ts| == 0 then {} else Foot(ts[0], deep) + FootAll(ts[1..], deep)
  }

  // The objects t owns.
  ghost function Owned(t: Tree): set<object> {
    Foot(t, false)
  }

  ghost function OwnedAll(ts: seq<Tree>): set<object> {
    FootAll(ts, false)
  }

  ghost function Roots(ts: seq<Tree>): (ns: seq<Node>)
    ensures |ns| == |ts| && forall i :: 0 <= i < |ts| ==> ns[i] == ts[i].node
  {
    seq(|ts|, i requires 0 <= i < |ts| => ts[i].node)
  }

  function NextIn(ns: seq<Node>, i: nat): Node?
    requires i < |ns|
  {
    if i + 1 < |ns| then ns[i + 1] else null
  }

  function PrevIn(ns: seq<Node>, i: nat): Node?
    requires i < |ns|
  {
    if i > 0 then ns[i - 1] else null
  }

  // ns is the doubly linked list that starts at first: no node twice, prev of the head null,
  // next of the last null, and the two links of neighbours agree.
  ghost predicate Linked(ns: seq<Node>, first: Node?)
    reads (set n | n in ns)`next, (set n | n in ns)`prev
  {
    && first == (if |ns| == 0 then null else ns[0])
    && (forall i, j :: 0 <= i < j < |ns| ==> ns[i] != ns[j])
    && (forall i :: 0 <= i < |ns| ==> ns[i].next == NextIn(ns, i))
    && (forall i :: 0 <= i < |ns| ==> ns[i].prev == PrevIn(ns, i))
  }

  lemma {:induction false} RootInFoot(ts: seq<Tree>, i: nat, deep: bool)
    requires i < |ts|
    ensures ts[i].node in FootAll(ts, deep) && Foot(ts[i], deep) <= FootAll(ts, deep)
  {
    if i > 0 {
      RootInFoot(ts[1..], i - 1, deep);
    }
  }

  lemma {:induction false} RootsInFoot(ts: seq<Tree>, deep: bool)
    ensures forall n :: n in Roots(ts) ==> n in FootAll(ts, deep)
  {
    forall n | n in Roots(ts) ensures n in FootAll(ts, deep) {
      var i :| 0 <= i < |ts| && Roots(ts)[i] == n;
      RootInFoot(ts, i, deep);
    }
  }

  // The heap holds what t says.
  ghost predicate Holds(t: Tree, deep: bool)
    reads Foot(t, deep)
    decreases t, 1
  {
    assert Counts(t, deep) ==> Inner(t, deep) == BufObjs(t.text) + FootAll(t.kids, deep);
    && t.node.typ == t.typ && t.node.valueint == t.ival && t.node.valuedouble == t.num
    && HoldsBuf(t.name, t.node.name)
    && (Counts(t, deep) ==>
          && HoldsBuf(t.text, t.node.valuestring)
          && HoldsList(t.kids, t.node.child, deep))
  }

  ghost predicate HoldsList(ts: seq<Tree>, first: Node?, deep: bool)
    reads FootAll(ts, deep)
    decreases ts, 1
  {
    RootsInFoot(ts, deep);
    Linked(Roots(ts), first) && HoldsAll(ts, deep)
  }

  ghost predicate HoldsAll(ts: seq<Tree>, deep: bool)
    reads FootAll(ts, deep)
    decreases ts, 0
  {
    |ts| == 0 || (Holds(ts[0], deep) && HoldsAll(ts[1..], deep))
  }

  // No object is owned twice.
  ghost predicate Tidy(t: Tree)
    decreases t, 1
  {
    && t.node !in Inner(t, false) && BufObjs(t.name) !! Inner(t, false)
    && (Counts(t, false) ==> BufObjs(t.text) !! OwnedAll(t.kids) && TidyAll(t.kids))
  }

  ghost predicate TidyAll(ts: seq<Tree>)
    decreases ts, 0
  {
    |ts| == 0 || (Owned(ts[0]) !! OwnedAll(ts[1..]) && Tidy(ts[0]) && TidyAll(ts[1..]))
  }
}
