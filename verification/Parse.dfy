// What the parser computes, as a function of the text: the tree and the cursor behind it, or
// the position the error pointer is left at.
module Parse {
  import opened Bytes
  import opened Json
  import Numbers
  import Strings

  // Overrun: a literal on the way holds an incomplete escape. The scans step over a fixed number of
  // bytes there, out of the buffer if the text ends in them; nothing more is said of such a text.
  datatype Result =
    | Ok(v: Value, pos: nat)
    | Fail(at: nat)
    | Overrun

  // The cursor moves forward and never passes the terminator; an error points into the text.
  predicate InText(s: bytes, i: nat, r: Result) {
    match r
    case Ok(_, pos) => i < pos <= |s|
    case Fail(at) => i <= at <= |s|
    case Overrun => true
  }

  function ParseString(s: bytes, i: nat): (r: Result)
    requires i < |s|
    ensures InText(s, i, r)
  {
    if s[i] != Strings.QUOTE then Fail(i)
    else if !Strings.Complete(s, i + 1) then Overrun
    else Ok(Str(Some(Strings.Decode(s, i + 1))), Strings.AfterLiteral(s, i + 1))
  }

  function ParseNumber(s: bytes, i: nat): (r: Result)
    requires i < |s| && Numbers.Starts(s[i])
    ensures InText(s, i, r)
  {
    var tok := Numbers.Scan(s, i);
    Numbers.ScanSound(s, i, tok);
    Ok(Num(Numbers.Value(tok)), i + |Numbers.Text(tok)|)
  }

  function ParseValue(s: bytes, i: nat): (r: Result)
    requires i <= |s|
    ensures InText(s, i, r)
    decreases |s| - i, 0
  {
    if Occurs(s, i, NULL_WORD) then Ok(Null, i + 4)
    else if Occurs(s, i, FALSE_WORD) then Ok(False, i + 5)
    else if Occurs(s, i, TRUE_WORD) then Ok(True, i + 4)
    else if i == |s| then Fail(i)
    else if s[i] == Strings.QUOTE then ParseString(s, i)
    else if Numbers.Starts(s[i]) then ParseNumber(s, i)
    else if s[i] == LBRACKET then ParseArray(s, i)
    else if s[i] == LBRACE then ParseObject(s, i)
    else Fail(i)
  }

  function ParseArray(s: bytes, i: nat): (r: Result)
    requires i < |s|
    ensures InText(s, i, r)
    decreases |s| - i - 1, 2
  {
    var k := Skip(s, i + 1);
    if At(s, k) == RBRACKET then Ok(Arr([]), k + 1) else ParseElems(s, k, [])
  }

  // The list loop: acc holds the elements read so far, the next one starts at k.
  function ParseElems(s: bytes, k: nat, acc: seq<Value>): (r: Result)
    requires k <= |s|
    ensures InText(s, k, r)
    decreases |s| - k, 1
  {
    var e := ParseValue(s, Skip(s, k));
    if !e.Ok? then e else
    var j := Skip(s, e.pos);
    if At(s, j) == COMMA then ParseElems(s, j + 1, acc + [e.v])
    else if At(s, j) == RBRACKET then Ok(Arr(acc + [e.v]), j + 1)
    else Fail(j)
  }

  function ParseObject(s: bytes, i: nat): (r: Result)
    requires i < |s|
    ensures InText(s, i, r)
    decreases |s| - i - 1, 2
  {
    var k := Skip(s, i + 1);
    if At(s, k) == RBRACE then Ok(Obj([]), k + 1) else ParseMembers(s, k, [])
  }

  datatype NameResult =
    | Name(name: bytes, next: nat)
    | NoName(at: nat)
    | NameOverrun

  // Read a member's name and its colon; next is the position behind the colon.
  function ReadName(s: bytes, k: nat): (r: NameResult)
    requires k <= |s|
    ensures r.Name? ==> k < r.next <= |s|
    ensures r.NoName? ==> k <= r.at <= |s|
  {
    var q := Skip(s, k);
    if At(s, q) != Strings.QUOTE then NoName(q)
    else if !Strings.Complete(s, q + 1) then NameOverrun
    else
      var c := Skip(s, Strings.AfterLiteral(s, q + 1));
      if At(s, c) != COLON then NoName(c) else Name(Strings.Decode(s, q + 1), c + 1)
  }

  function ParseMembers(s: bytes, k: nat, acc: seq<Member>): (r: Result)
    requires k <= |s|
    ensures InText(s, k, r)
    decreases |s| - k, 1
  {
    match ReadName(s, k)
    case NoName(at) => Fail(at)
    case NameOverrun => Overrun
    case Name(name, next) =>
      var e := ParseValue(s, Skip(s, next));
      if !e.Ok? then e else
      var j := Skip(s, e.pos);
      var acc' := acc + [Member(Some(name), e.v)];
      if At(s, j) == COMMA then ParseMembers(s, j + 1, acc')
      else if At(s, j) == RBRACE then Ok(Obj(acc'), j + 1)
      else Fail(j)
  }

  // cJSON_Parse: one value behind leading blanks; what follows it is not looked at.
  function ParseText(s: bytes): (r: Result) {
    ParseValue(s, Skip(s, 0))
  }
}
