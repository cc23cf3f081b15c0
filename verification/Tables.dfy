// The tables of string pointers print_array and print_object gather their entries in.
module Tables {
  import opened Bytes
  import opened Memory

  type Slot = array?<byte>

  // The buffers in the table.
  ghost function Slots(es: seq<Slot>): set<object> {
    set i | 0 <= i < |es| && es[i] != null :: es[i]
  }

  // No buffer stands in two slots.
  ghost predicate Apart(es: seq<Slot>) {
    forall i, j :: 0 <= i < j < |es| && es[i] != null ==> es[i] != es[j]
  }

  // The first slots hold these C strings.
  ghost predicate Spelled(es: seq<Slot>, texts: seq<bytes>)
    reads Slots(es)
  {
    && |texts| <= |es|
    && forall j :: 0 <= j < |texts| ==> es[j] != null && es[j] in Slots(es) && CString(es[j], texts[j])
  }

  lemma SlotsSet(es: seq<Slot>, i: nat, a: Slot)
    requires i < |es| && es[i] == null && Apart(es) && (a != null ==> a !in Slots(es))
    ensures Apart(es[i := a])
    ensures Slots(es[i := a]) == if a == null then Slots(es) else Slots(es) + {a}
  {
    var fs := es[i := a];
    assert fs[i] == a;
    forall o | o in Slots(es) ensures o in Slots(fs) {
      var j :| 0 <= j < |es| && es[j] != null && es[j] == o;
      assert fs[j] == o;
    }
    forall o | o in Slots(fs) && o != a ensures o in Slots(es) {
      var j :| 0 <= j < |fs| && fs[j] != null && fs[j] == o;
      assert es[j] == o;
    }
    forall j, k | 0 <= j < k < |fs| && fs[j] != null ensures fs[j] != fs[k] {
      if j == i {
        assert es[k] != null ==> es[k] in Slots(es);
      } else if k == i {
        assert es[j] in Slots(es);
      }
    }
  }

  lemma SpelledMore(es: seq<Slot>, texts: seq<bytes>, a: array<byte>, w: bytes)
    requires Spelled(es, texts) && |texts| < |es| && CString(a, w) && es[|texts|] == null
    ensures Spelled(es[|texts| := a], texts + [w])
  {
    hide CString;
    var fs := es[|texts| := a];
    forall j | 0 <= j <= |texts| ensures fs[j] != null && fs[j] in Slots(fs) && CString(fs[j], (texts + [w])[j]) {
      assert fs[j] in fs;
    }
  }

  lemma NoSlots(es: seq<Slot>)
    requires forall i :: 0 <= i < |es| ==> es[i] == null
    ensures Slots(es) == {} && Apart(es) && Spelled(es, [])
  {
  }

  lemma SlotsSplit(es: seq<Slot>, i: nat)
    requires i < |es| && Apart(es)
    ensures es[i] != null ==> es[i] !in Slots(es[..i]) && es[i] in Slots(es)
    ensures Slots(es[..i]) <= Slots(es)
    ensures Slots(es[..i + 1]) == Slots(es[..i]) + (if es[i] == null then {} else {es[i]})
  {
    var was, now := es[..i], es[..i + 1];
    assert now == was + [es[i]];
    assert now[i] == es[i];
    forall o | o in Slots(was) ensures o in Slots(now) && o != es[i] {
      var j :| 0 <= j < i && was[j] != null && was[j] == o;
      assert now[j] == o && es[j] == o;
    }
    forall o | o in Slots(now) && o != es[i] ensures o in Slots(was) {
      var j :| 0 <= j < i + 1 && now[j] != null && now[j] == o;
      assert was[j] == o;
    }
  }

  // Free what a slot holds, if anything.
  method FreeSlot(lib: Library, tab: array<Slot>, i: nat)
    requires i < tab.Length && (tab[i] != null ==> tab[i] in lib.live)
    modifies lib`live, if tab[i] == null then {} else {tab[i]}
    ensures lib.live == old(lib.live) - (if tab[i] == null then {} else {tab[i]})
  {
    if tab[i] != null {
      lib.FreeBytes(tab[i]);
    }
  }

  // The failure path of print_array: every entry, then the table.
  method Release(lib: Library, tab: array<Slot>, ghost es: seq<Slot>)
    requires tab[..] == es && Apart(es) && Slots(es) + {tab} <= lib.live && tab !in Slots(es)
    modifies lib`live, tab, Slots(es)
    ensures lib.live == old(lib.live) - Slots(es) - {tab}
  {
    hide Slots, Apart;
    var i := 0;
    assert Slots(es[..0]) == {} by { NoSlots(es[..0]); }
    while i < tab.Length
      invariant 0 <= i <= tab.Length && tab[..] == es
      invariant lib.live == old(lib.live) - Slots(es[..i])
    {
      SlotsSplit(es, i);
      FreeSlot(lib, tab, i);
      i := i + 1;
    }
    assert es[..i] == es;
    lib.FreeTable(tab);
  }

  // The failure path of print_object: each name and its value in turn, then both tables.
  method ReleaseBoth(lib: Library, names: array<Slot>, entries: array<Slot>, ghost ns: seq<Slot>, ghost es: seq<Slot>)
    requires names[..] == ns && entries[..] == es && |ns| == |es| && Apart(ns) && Apart(es) && Slots(ns) !! Slots(es)
    requires Slots(ns) + Slots(es) + {names, entries} <= lib.live && names != entries
    requires names !in Slots(ns) + Slots(es) && entries !in Slots(ns) + Slots(es)
    modifies lib`live, names, entries, Slots(ns), Slots(es)
    ensures lib.live == old(lib.live) - Slots(ns) - Slots(es) - {names, entries}
  {
    hide Slots, Apart;
    var i := 0;
    assert Slots(ns[..0]) == {} && Slots(es[..0]) == {} by { NoSlots(ns[..0]); NoSlots(es[..0]); }
    while i < names.Length
      invariant 0 <= i <= names.Length && names[..] == ns && entries[..] == es
      invariant lib.live == old(lib.live) - Slots(ns[..i]) - Slots(es[..i])
    {
      SlotsSplit(ns, i);
      SlotsSplit(es, i);
      FreeSlot(lib, names, i);
      FreeSlot(lib, entries, i);
      i := i + 1;
    }
    assert ns[..i] == ns && es[..i] == es;
    lib.FreeTable(names);
    lib.FreeTable(entries);
  }
}
