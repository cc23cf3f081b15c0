// JSON trees, and the text the printer gives them in its compact and its indented layout.
module Json {
  import opened Bytes
  import Rendering
  import StringTokens

  // Texts and names are C string pointers: None is the null pointer.
  datatype Value =
    | Null
    | False
    | True
    | Num(r: real)
    | Str(text: Option<bytes>)
    | Arr(items: seq<Value>)
    | Obj(members: seq<Member>)

  datatype Member = Member(name: Option<bytes>, value: Value)

  const NULL_WORD: bytes := [110, 117, 108, 108]
  const FALSE_WORD: bytes := [102, 97, 108, 115, 101]
  const TRUE_WORD: bytes := [116, 114, 117, 101]
  const LBRACKET: byte := 91
  const RBRACKET: byte := 93
  const LBRACE: byte := 123
  const RBRACE: byte := 125
  const COMMA: byte := 44
  const COLON: byte := 58
  const TAB: byte := 9
  const NEWLINE: byte := 10
  const SPACE: byte := 32

  function Tabs(n: nat): (w: bytes)
    ensures |w| == n
  {
    if n == 0 then [] else [TAB] + Tabs(n - 1)
  }

  // The null pointer prints as empty text, without quotes.
  function PrintText(t: Option<bytes>): bytes {
    if t.None? then [] else StringTokens.Quote(t.value)
  }

  function ItemGap(fmt: bool): bytes {
    if fmt then [COMMA, SPACE] else [COMMA]
  }

  // The text of a tree at a nesting depth.
  function Print(v: Value, depth: nat, fmt: bool): bytes
    decreases v
  {
    match v
    case Null => NULL_WORD
    case False => FALSE_WORD
    case True => TRUE_WORD
    case Num(r) => Rendering.Render(r)
    case Str(t) => PrintText(t)
    case Arr(items) => [LBRACKET] + PrintItems(items, depth + 1, fmt) + [RBRACKET]
    case Obj(ms) => OpenObject(fmt) + PrintMembers(ms, depth + 1, fmt) + CloseObject(depth, fmt)
  }

  function OpenObject(fmt: bool): bytes {
    if fmt then [LBRACE, NEWLINE] else [LBRACE]
  }

  function CloseObject(depth: nat, fmt: bool): bytes {
    (if fmt then Tabs(depth) else []) + [RBRACE]
  }

  function PrintItems(items: seq<Value>, depth: nat, fmt: bool): bytes
    decreases items
  {
    if |items| == 0 then []
    else if |items| == 1 then Print(items[0], depth, fmt)
    else Print(items[0], depth, fmt) + ItemGap(fmt) + PrintItems(items[1..], depth, fmt)
  }

  // What stands before a member's value: its indentation, its name and the colon.
  function MemberHead(name: Option<bytes>, depth: nat, fmt: bool): bytes {
    HeadText(PrintText(name), depth, fmt)
  }

  function HeadText(title: bytes, depth: nat, fmt: bool): bytes {
    (if fmt then Tabs(depth) else []) + title + (if fmt then [COLON, TAB] else [COLON])
  }

  function MemberTail(last: bool, fmt: bool): bytes {
    (if last then [] else [COMMA]) + (if fmt then [NEWLINE] else [])
  }

  function PrintMember(m: Member, depth: nat, fmt: bool): bytes
    decreases m
  {
    MemberHead(m.name, depth, fmt) + Print(m.value, depth, fmt)
  }

  function PrintMembers(ms: seq<Member>, depth: nat, fmt: bool): bytes
    decreases ms
  {
    if |ms| == 0 then [] else
      PrintMember(ms[0], depth, fmt) + MemberTail(|ms| == 1, fmt) + PrintMembers(ms[1..], depth, fmt)
  }

  // Every text and name holds no NUL, as C strings do.
  predicate Clean(v: Value)
    decreases v
  {
    match v
    case Str(t) => CleanText(t)
    case Arr(items) => forall i :: 0 <= i < |items| ==> Clean(items[i])
    case Obj(ms) => forall i :: 0 <= i < |ms| ==> CleanMember(ms[i])
    case _ => true
  }

  predicate CleanMember(m: Member)
    decreases m
  {
    CleanText(m.name) && Clean(m.value)
  }

  predicate CleanText(t: Option<bytes>) {
    t.Some? ==> NulFree(t.value)
  }

  // Every text and name is there.
  predicate Filled(v: Value)
    decreases v
  {
    match v
    case Str(t) => t.Some?
    case Arr(items) => forall i :: 0 <= i < |items| ==> Filled(items[i])
    case Obj(ms) => forall i :: 0 <= i < |ms| ==> FilledMember(ms[i])
    case _ => true
  }

  predicate FilledMember(m: Member)
    decreases m
  {
    m.name.Some? && Filled(m.value)
  }

  predicate Printable(v: Value) {
    Filled(v) && Clean(v)
  }

  predicate PrintableMember(m: Member) {
    FilledMember(m) && CleanMember(m)
  }

  // Every number is written without loss.
  predicate Exact(v: Value)
    decreases v
  {
    match v
    case Num(r) => Rendering.Exact(r)
    case Arr(items) => forall i :: 0 <= i < |items| ==> Exact(items[i])
    case Obj(ms) => forall i :: 0 <= i < |ms| ==> ExactMember(ms[i])
    case _ => true
  }

  predicate ExactMember(m: Member)
    decreases m
  {
    Exact(m.value)
  }

  // The text of every number fits the buffer print_number writes it into.
  predicate Short(v: Value)
    decreases v
  {
    match v
    case Num(r) => Rendering.Fits(r)
    case Arr(items) => forall i :: 0 <= i < |items| ==> Short(items[i])
    case Obj(ms) => forall i :: 0 <= i < |ms| ==> ShortMember(ms[i])
    case _ => true
  }

  predicate ShortMember(m: Member)
    decreases m
  {
    Short(m.value)
  }

  // The tree with the numbers that its text denotes.
  function Rounded(v: Value): Value
    decreases v
  {
    match v
    case Num(r) => Num(Rendering.Written(r))
    case Arr(items) => Arr(RoundedItems(items))
    case Obj(ms) => Obj(RoundedMembers(ms))
    case _ => v
  }

  function RoundedItems(items: seq<Value>): (vs: seq<Value>)
    ensures |vs| == |items|
    decreases items
  {
    if |items| == 0 then [] else [Rounded(items[0])] + RoundedItems(items[1..])
  }

  function RoundedMember(m: Member): Member
    decreases m
  {
    Member(m.name, Rounded(m.value))
  }

  function RoundedMembers(ms: seq<Member>): (ns: seq<Member>)
    ensures |ns| == |ms|
    decreases ms
  {
    if |ms| == 0 then [] else [RoundedMember(ms[0])] + RoundedMembers(ms[1..])
  }

  // Nothing is rounded away exactly when every number is exact.
  lemma {:induction false} RoundedIffExact(v: Value)
    ensures Rounded(v) == v <==> Exact(v)
    decreases v, 0
  {
    match v
    case Arr(items) => ItemsRoundedIff(items);
    case Obj(ms) => MembersRoundedIff(ms);
    case _ =>
  }

  lemma {:induction false} ItemsRoundedIff(items: seq<Value>)
    ensures RoundedItems(items) == items <==> Exact(Arr(items))
    decreases items, 1
  {
    if |items| > 0 {
      RoundedIffExact(items[0]);
      ItemsRoundedIff(items[1..]);
      assert items == [items[0]] + items[1..];
      assert forall i :: 0 < i < |items| ==> items[i] == items[1..][i - 1];
      assert forall i :: 0 <= i < |items| - 1 ==> items[1..][i] == items[i + 1];
    }
  }

  lemma {:induction false} MembersRoundedIff(ms: seq<Member>)
    ensures RoundedMembers(ms) == ms <==> Exact(Obj(ms))
    decreases ms, 1
  {
    if |ms| > 0 {
      MemberRoundedIff(ms[0]);
      MembersRoundedIff(ms[1..]);
      assert ms == [ms[0]] + ms[1..];
      assert forall i :: 0 < i < |ms| ==> ms[i] == ms[1..][i - 1];
      assert forall i :: 0 <= i < |ms| - 1 ==> ms[1..][i] == ms[i + 1];
    }
  }

  lemma {:induction false} MemberRoundedIff(m: Member)
    ensures RoundedMember(m) == m <==> ExactMember(m)
    decreases m
  {
    RoundedIffExact(m.value);
  }

  // ---- The length print_array and print_object compute before they write ----

  function Extra(fmt: bool): nat {
    if fmt then 1 else 0
  }

  function ItemsLen(items: seq<Value>, depth: nat, fmt: bool): nat
    decreases items
  {
    if |items| == 0 then 0
    else |Print(items[0], depth, fmt)| + 2 + Extra(fmt) + ItemsLen(items[1..], depth, fmt)
  }

  function MemberLen(m: Member, depth: nat, fmt: bool): nat {
    |Print(m.value, depth, fmt)| + |PrintText(m.name)| + 2 + (if fmt then 2 + depth else 0)
  }

  function MembersLen(ms: seq<Member>, depth: nat, fmt: bool): nat {
    if |ms| == 0 then 0 else MemberLen(ms[0], depth, fmt) + MembersLen(ms[1..], depth, fmt)
  }

  function ArrayLen(items: seq<Value>, depth: nat, fmt: bool): nat {
    5 + ItemsLen(items, depth + 1, fmt)
  }

  function ObjectLen(ms: seq<Member>, depth: nat, fmt: bool): nat {
    7 + (if fmt then depth + 1 else 0) + MembersLen(ms, depth + 1, fmt)
  }

  lemma {:induction false} ItemsSlack(items: seq<Value>, depth: nat, fmt: bool)
    requires |items| > 0
    ensures ItemsLen(items, depth, fmt) == |PrintItems(items, depth, fmt)| + |items| + 1 + Extra(fmt)
    decreases |items|
  {
    if |items| > 1 {
      ItemsSlack(items[1..], depth, fmt);
    }
  }

  // The buffer of an array holds its text and the terminator, with exactly this much to spare.
  lemma {:induction false} ArraySlack(items: seq<Value>, depth: nat, fmt: bool)
    ensures ArrayLen(items, depth, fmt)
         == |Print(Arr(items), depth, fmt)| + 1
          + (if |items| == 0 then 2 else 3 + |items| + Extra(fmt))
  {
    if |items| > 0 {
      ItemsSlack(items, depth + 1, fmt);
    }
  }

  lemma {:induction false} MembersSlack(ms: seq<Member>, depth: nat, fmt: bool)
    ensures MembersLen(ms, depth, fmt)
         == |PrintMembers(ms, depth, fmt)| + (if |ms| == 0 then 0 else 1)
    decreases |ms|
  {
    if |ms| > 0 {
      MembersSlack(ms[1..], depth, fmt);
    }
  }

  lemma {:induction false} ObjectSlack(ms: seq<Member>, depth: nat, fmt: bool)
    ensures ObjectLen(ms, depth, fmt)
         == |Print(Obj(ms), depth, fmt)| + 1 + (if |ms| == 0 then 4 else 5)
  {
    MembersSlack(ms, depth + 1, fmt);
  }
}
