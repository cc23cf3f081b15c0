// What a mirrored tree denotes, and how mirrors grow, stay put under relinking, and look
// through references.
module Trees {
  import opened Memory
  import Json

  // The JSON tree an item stands for. Only the low byte of the type word counts.
  function ToJson(t: Tree): Json.Value
    decreases t, 1
  {
    var kind := t.typ % 256;
    if kind == TYPE_FALSE then Json.False
    else if kind == TYPE_TRUE then Json.True
    else if kind == TYPE_NUMBER then Json.Num(t.num)
    else if kind == TYPE_STRING then Json.Str(BufText(t.text))
    else if kind == TYPE_ARRAY then Json.Arr(ToItems(t.kids))
    else if kind == TYPE_OBJECT then Json.Obj(ToMembers(t.kids))
    else Json.Null
  }

  // The seven types by the numbers the header gives them, whatever flags stand above the low byte;
  // the flag of a reference is bit 8.
  lemma {:induction false} TypesByNumber(t: Tree, deep: bool)
    ensures var k := t.typ % 256;
            ToJson(t) == match k
                         case 0 => Json.False
                         case 1 => Json.True
                         case 3 => Json.Num(t.num)
                         case 4 => Json.Str(BufText(t.text))
                         case 5 => Json.Arr(ToItems(t.kids))
                         case 6 => Json.Obj(ToMembers(t.kids))
                         case _ => Json.Null
    ensures IsRef(t.typ) <==> 256 <= t.typ % 512
  {
    hide ToItems, ToMembers;
  }

  function ToItems(ts: seq<Tree>): (vs: seq<Json.Value>)
    ensures |vs| == |ts|
    decreases ts, 0
  {
    if |ts| == 0 then [] else [ToJson(ts[0])] + ToItems(ts[1..])
  }

  function ToMember(t: Tree): Json.Member
    decreases t, 2
  {
    Json.Member(BufText(t.name), ToJson(t))
  }

  function ToMembers(ts: seq<Tree>): (ms: seq<Json.Member>)
    ensures |ms| == |ts|
    decreases ts, 0
  {
    if |ts| == 0 then [] else [ToMember(ts[0])] + ToMembers(ts[1..])
  }

  // ---- Adding an item at the end of a list ----

  lemma ConcatPeel(ts: seq<Tree>, us: seq<Tree>)
    requires |ts| > 0
    ensures (ts + us)[0] == ts[0] && (ts + us)[1..] == ts[1..] + us
  {
  }

  lemma {:induction false} FootConcat(ts: seq<Tree>, us: seq<Tree>, deep: bool)
    ensures FootAll(ts + us, deep) == FootAll(ts, deep) + FootAll(us, deep)
    decreases |ts|
  {
    if |ts| == 0 {
      assert ts + us == us;
    } else {
      ConcatPeel(ts, us);
      FootConcat(ts[1..], us, deep);
    }
  }

  lemma {:induction false} HoldsConcat(ts: seq<Tree>, us: seq<Tree>, deep: bool)
    ensures HoldsAll(ts + us, deep) <==> HoldsAll(ts, deep) && HoldsAll(us, deep)
    decreases |ts|
  {
    if |ts| == 0 {
      assert ts + us == us;
    } else {
      ConcatPeel(ts, us);
      HoldsConcat(ts[1..], us, deep);
    }
  }

  lemma {:induction false} TidyConcat(ts: seq<Tree>, us: seq<Tree>)
    ensures TidyAll(ts + us) <==> TidyAll(ts) && TidyAll(us) && OwnedAll(ts) !! OwnedAll(us)
    decreases |ts|
  {
    if |ts| == 0 {
      assert ts + us == us;
    } else {
      ConcatPeel(ts, us);
      TidyConcat(ts[1..], us);
      FootConcat(ts[1..], us, false);
    }
  }

  lemma {:induction false} ItemsConcat(ts: seq<Tree>, us: seq<Tree>)
    ensures ToItems(ts + us) == ToItems(ts) + ToItems(us)
    ensures ToMembers(ts + us) == ToMembers(ts) + ToMembers(us)
    decreases |ts|
  {
    if |ts| == 0 {
      assert ts + us == us;
    } else {
      ConcatPeel(ts, us);
      ItemsConcat(ts[1..], us);
    }
  }

  lemma {:induction false} FootOne(t: Tree, deep: bool)
    ensures FootAll([t], deep) == Foot(t, deep)
  {
    assert [t][1..] == [];
  }

  lemma {:induction false} AllOne(t: Tree, deep: bool)
    ensures HoldsAll([t], deep) <==> Holds(t, deep)
    ensures TidyAll([t]) <==> Tidy(t)
    ensures ToItems([t]) == [ToJson(t)] && ToMembers([t]) == [ToMember(t)]
  {
    assert [t][1..] == [];
  }

  lemma {:induction false} ItemAt(ts: seq<Tree>, i: nat, deep: bool)
    requires i < |ts|
    ensures HoldsAll(ts, deep) ==> Holds(ts[i], deep)
    ensures Foot(ts[i], deep) <= FootAll(ts, deep)
    ensures ToItems(ts)[i] == ToJson(ts[i]) && ToMembers(ts)[i] == ToMember(ts[i])
  {
    if i > 0 {
      ItemAt(ts[1..], i - 1, deep);
    }
  }

  // ---- Relinking ----

  // The contents of n are as before; only its place in a list may have changed.
  twostate predicate SameContents(n: Node)
    reads n
  {
    && n.child == old(n.child) && n.typ == old(n.typ) && n.valuestring == old(n.valuestring)
    && n.valueint == old(n.valueint) && n.valuedouble == old(n.valuedouble) && n.name == old(n.name)
  }

  // Rewriting next and prev of the items of a list leaves what the items hold untouched.
  twostate lemma {:induction false} HoldsRelinked(ts: seq<Tree>)
    requires TidyAll(ts) && old(HoldsAll(ts, false))
    requires forall o :: o in OwnedAll(ts) && o !in Roots(ts) ==> old(allocated(o)) && unchanged(o)
    requires forall n :: n in Roots(ts) ==> SameContents(n)
    ensures HoldsAll(ts, false)
    decreases ts
  {
    if |ts| > 0 {
      var t, rest := ts[0], ts[1..];
      assert Roots(ts)[0] == t.node;
      RootsSplit(ts);
      RootsInFoot(rest, false);
      forall o | o in Owned(t) && o != t.node ensures o in OwnedAll(ts) && o !in Roots(ts) {
        assert o !in OwnedAll(rest);
      }
      HoldsKept(t);
      forall o | o in OwnedAll(rest) && o !in Roots(rest) ensures o in OwnedAll(ts) && o !in Roots(ts) {
        assert o !in Owned(t);
      }
      forall n | n in Roots(rest) ensures n in Roots(ts) {
      }
      HoldsRelinked(rest);
    }
  }

  lemma RootsSplit(ts: seq<Tree>)
    requires |ts| > 0
    ensures Roots(ts) == [ts[0].node] + Roots(ts[1..])
  {
  }

  twostate lemma {:induction false} HoldsKept(t: Tree)
    requires Tidy(t) && old(Holds(t, false)) && SameContents(t.node)
    requires forall o :: o in Owned(t) && o != t.node ==> old(allocated(o)) && unchanged(o)
    ensures Holds(t, false)
  {
    assert BufObjs(t.name) <= Owned(t) && Inner(t, false) <= Owned(t);
    if Counts(t, false) {
      assert Inner(t, false) == BufObjs(t.text) + OwnedAll(t.kids);
      assert old(HoldsList(t.kids, t.node.child, false));
    }
  }

  lemma NoItems()
    ensures OwnedAll([]) == {} && ToItems([]) == [] && ToMembers([]) == [] && HoldsAll([], false) && TidyAll([])
  {
  }
}
