// The composing pass of print_array and print_object: the texts of the entries are copied into
// a buffer measured beforehand and freed one by one. Every write is stated by what it appends.
module Composing {
  import opened Bytes
  import opened Memory
  import Json

  // strlen
  method StrLen(a: array<byte>, ghost chars: bytes) returns (n: nat)
    requires CString(a, chars)
    ensures n == |chars| && a[..n] == chars
  {
    n := 0;
    assert forall i :: 0 <= i < |chars| ==> a[i] == a[..|chars|][i];
    while a[n] != 0
      invariant n <= |chars|
      decreases |chars| - n
    {
      n := n + 1;
    }
  }

  // strcpy at the end of what is written so far; ptr is where its terminator stands.
  method Append(out: array<byte>, at: nat, src: array<byte>, ghost chars: bytes) returns (ptr: nat)
    requires CString(src, chars) && src != out && at + |chars| < out.Length
    modifies out
    ensures ptr == at + |chars| && out[..ptr] == old(out[..at]) + chars
  {
    var n := StrLen(src, chars);
    CopyIn(out, at, src[..n]);
    ptr := at + n;
    assert out[..ptr] == out[..at] + out[at..ptr];
  }

  // A short word at the start of a buffer.
  method CopyWord(out: array<byte>, word: bytes)
    requires |word| < out.Length && NulFree(word)
    modifies out
    ensures CString(out, word)
  {
    CopyIn(out, 0, word);
    assert out[..|word|] == out[0..|word|];
  }

  lemma {:induction false} TabsSnoc(n: nat)
    ensures Json.Tabs(n + 1) == Json.Tabs(n) + [Json.TAB]
  {
    if n > 0 {
      TabsSnoc(n - 1);
    }
  }

  method AppendTabs(out: array<byte>, at: nat, n: nat) returns (ptr: nat)
    requires at + n <= out.Length
    modifies out
    ensures ptr == at + n && out[..ptr] == old(out[..at]) + Json.Tabs(n)
  {
    ptr := at;
    var j := 0;
    while j < n
      invariant 0 <= j <= n && ptr == at + j && out[..ptr] == old(out[..at]) + Json.Tabs(j)
    {
      TabsSnoc(j);
      out[ptr] := Json.TAB;
      ptr, j := ptr + 1, j + 1;
    }
  }

  // One element and what stands between it and the next; the terminator is overwritten later.
  method AppendItem(out: array<byte>, at: nat, entry: array<byte>, last: bool, fmt: bool, ghost text: bytes)
    returns (ptr: nat)
    requires CString(entry, text) && entry != out
    requires at + |text| + (if last then 0 else |Json.ItemGap(fmt)|) < out.Length
    modifies out
    ensures ptr == at + |text| + (if last then 0 else |Json.ItemGap(fmt)|)
    ensures out[..ptr] == old(out[..at]) + (text + (if last then [] else Json.ItemGap(fmt)))
  {
    ptr := Append(out, at, entry, text);
    if !last {
      out[ptr] := Json.COMMA;
      ptr := ptr + 1;
      if fmt {
        out[ptr] := Json.SPACE;
        ptr := ptr + 1;
      }
      out[ptr] := 0;
    }
  }

  // One member: its indentation, name, colon and value, and the end of its line.
  method AppendMember(out: array<byte>, at: nat, name: array<byte>, entry: array<byte>, depth: nat, last: bool,
          fmt: bool, ghost title: bytes, ghost text: bytes)
    returns (ptr: nat)
    requires CString(name, title) && CString(entry, text) && name != out && entry != out
    requires at + |MemberText(title, text, depth, last, fmt)| < out.Length
    modifies out
    ensures ptr == at + |MemberText(title, text, depth, last, fmt)|
    ensures out[..ptr] == old(out[..at]) + MemberText(title, text, depth, last, fmt)
  {
    hide CString;
    ptr := AppendHead(out, at, name, depth, fmt, title);
    ghost var head := Json.HeadText(title, depth, fmt);
    ptr := Append(out, ptr, entry, text);
    ptr := AppendTail(out, ptr, last, fmt);
    assert old(out[..at]) + head + text + Json.MemberTail(last, fmt)
      == old(out[..at]) + (head + text + Json.MemberTail(last, fmt));
  }

  ghost function MemberText(title: bytes, text: bytes, depth: nat, last: bool, fmt: bool): bytes {
    Json.HeadText(title, depth, fmt) + text + Json.MemberTail(last, fmt)
  }

  method AppendHead(out: array<byte>, at: nat, name: array<byte>, depth: nat, fmt: bool, ghost title: bytes)
    returns (ptr: nat)
    requires CString(name, title) && name != out
    requires at + |Json.HeadText(title, depth, fmt)| < out.Length
    modifies out
    ensures ptr == at + |Json.HeadText(title, depth, fmt)|
    ensures out[..ptr] == old(out[..at]) + Json.HeadText(title, depth, fmt)
  {
    hide Json.Tabs;
    ptr := at;
    if fmt {
      ptr := AppendTabs(out, ptr, depth);
    }
    ptr := Append(out, ptr, name, title);
    out[ptr] := Json.COLON;
    ptr := ptr + 1;
    if fmt {
      out[ptr] := Json.TAB;
      ptr := ptr + 1;
    }
  }

  method AppendTail(out: array<byte>, at: nat, last: bool, fmt: bool) returns (ptr: nat)
    requires at + |Json.MemberTail(last, fmt)| < out.Length
    modifies out
    ensures ptr == at + |Json.MemberTail(last, fmt)| && out[..ptr] == old(out[..at]) + Json.MemberTail(last, fmt)
  {
    ptr := at;
    if !last {
      out[ptr] := Json.COMMA;
      ptr := ptr + 1;
    }
    if fmt {
      out[ptr] := Json.NEWLINE;
      ptr := ptr + 1;
    }
    out[ptr] := 0;
  }
}
