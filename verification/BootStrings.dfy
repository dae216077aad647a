/** Packed NUL-terminated strings, the list edits of the boot argument block, and
    the words of a command line, all on values. */
module BootStrings {
  import opened Options
  import opened Memory

  const NUL: byte := 0
  const SPACE: byte := 32
  const DASH: byte := 45

  /** A C string without its terminator. */
  type cstr = s: seq<byte> | NUL !in s

  // ---------------------------------------------------------------- packing

  function Packed(ss: seq<cstr>): (b: seq<byte>) {
    if ss == [] then [] else ss[0] + [NUL] + Packed(ss[1..])
  }

  lemma {:induction false} PackedAppend(a: seq<cstr>, b: seq<cstr>)
    ensures Packed(a + b) == Packed(a) + Packed(b)
  {
    if a == [] {
      assert a + b == b;
    } else {
      assert (a + b)[0] == a[0] && (a + b)[1..] == a[1..] + b;
      PackedAppend(a[1..], b);
    }
  }

  lemma PackedOne(s: cstr)
    ensures Packed([s]) == s + [NUL]
  {
    assert [s][1..] == [];
  }

  /** The list cut at entry `i`. */
  lemma PackedAt(ss: seq<cstr>, i: nat)
    requires i < |ss|
    ensures Packed(ss) == Packed(ss[..i]) + (ss[i] + [NUL]) + Packed(ss[i + 1..])
  {
    var rest := ss[i..];
    assert ss == ss[..i] + rest;
    PackedAppend(ss[..i], rest);
    assert rest[0] == ss[i] && rest[1..] == ss[i + 1..];
    var a, b, c := Packed(ss[..i]), ss[i] + [NUL], Packed(ss[i + 1..]);
    assert Packed(ss) == a + (b + c);
    assert a + (b + c) == (a + b) + c;
  }

  /** The bytes from `p` up to the next NUL (or the end): what a `char *` denotes. */
  function CString(m: seq<byte>, p: nat): (s: cstr)
    requires p <= |m|
    decreases |m| - p
  {
    if p == |m| || m[p] == NUL then [] else [m[p]] + CString(m, p + 1)
  }

  lemma {:induction false} CStringIs(m: seq<byte>, p: nat, s: cstr)
    requires p + |s| < |m| && m[p..p + |s|] == s && m[p + |s|] == NUL
    ensures CString(m, p) == s
    decreases |s|
  {
    if s != [] {
      assert m[p] == s[0] && m[p] in s;
      assert m[p + 1..p + 1 + |s[1..]|] == s[1..];
      CStringIs(m, p + 1, s[1..]);
    }
  }

  // ---------------------------------------------------------------- editing a list

  /** The first position of `o`, or the length of the list. */
  function FirstOf(l: seq<cstr>, o: cstr): (i: nat)
    ensures i <= |l| && (i < |l| ==> l[i] == o) && forall j :: 0 <= j < i ==> l[j] != o
  {
    if l == [] || l[0] == o then 0 else 1 + FirstOf(l[1..], o)
  }

  /** Insert at the end, replace the first, delete the first. */
  function Edited(l: seq<cstr>, was: Option<cstr>, now: Option<cstr>): (r: seq<cstr>)
    requires was.Some? || now.Some?
  {
    match was
    case None => l + [now.value]
    case Some(o) =>
      var i := FirstOf(l, o);
      if i == |l| then l
      else l[..i] + (if now.Some? then [now.value] else []) + l[i + 1..]
  }

  /** The call finds something to do. */
  predicate Applies(l: seq<cstr>, was: Option<cstr>) {
    was.Some? ==> was.value in l
  }

  /** Where the edit takes place: index, bytes removed, bytes put in. */
  function EditIndex(l: seq<cstr>, was: Option<cstr>): (i: nat)
    ensures i <= |l|
  {
    if was.None? then |l| else FirstOf(l, was.value)
  }

  function Removed(was: Option<cstr>): (b: seq<byte>) {
    if was.Some? then was.value + [NUL] else []
  }

  function Put(now: Option<cstr>): (b: seq<byte>) {
    if now.Some? then now.value + [NUL] else []
  }

  /** An edit of the list is one splice of its packed bytes. */
  lemma EditedPacked(l: seq<cstr>, was: Option<cstr>, now: Option<cstr>)
    requires (was.Some? || now.Some?) && Applies(l, was)
    ensures var i := EditIndex(l, was);
            var tail := if was.None? then [] else l[i + 1..];
            && Packed(l) == Packed(l[..i]) + Removed(was) + Packed(tail)
            && Packed(Edited(l, was, now)) == Packed(l[..i]) + Put(now) + Packed(tail)
            && |Edited(l, was, now)| == |l| + (if was.None? then 1 else if now.None? then -1 else 0)
  {
    var i := EditIndex(l, was);
    if was.None? {
      assert l[..i] == l;
      PackedAppend(l, [now.value]);
      PackedOne(now.value);
    } else {
      assert i < |l|;
      PackedAt(l, i);
      var mid := if now.Some? then [now.value] else [];
      assert Edited(l, was, now) == l[..i] + mid + l[i + 1..];
      PackedAppend(l[..i] + mid, l[i + 1..]);
      PackedAppend(l[..i], mid);
      if now.Some? {
        PackedOne(now.value);
      }
    }
  }

  // ---------------------------------------------------------------- words

  function SkipSpaces(s: seq<byte>): (r: seq<byte>)
    ensures |r| <= |s| && (r != [] ==> r[0] != SPACE)
  {
    if s != [] && s[0] == SPACE then SkipSpaces(s[1..]) else s
  }

  /** The length of the leading run without spaces. */
  function WordLen(s: seq<byte>): (n: nat)
    ensures n <= |s| && SPACE !in s[..n] && (n < |s| ==> s[n] == SPACE)
  {
    if s == [] || s[0] == SPACE then 0 else 1 + WordLen(s[1..])
  }

  /** What follows the first word: the one space that ended it is dropped. */
  function AfterWord(s: seq<byte>): (r: seq<byte>)
    ensures |r| <= |s| && (s != [] && s[0] != SPACE ==> |r| < |s|)
  {
    var n := WordLen(s);
    if n < |s| then s[n + 1..] else []
  }

  function Words(s: cstr): (w: seq<cstr>)
    decreases |s|
  {
    var t := SkipSpaces(s);
    if t == [] then []
    else
      SkipSpacesIsCstr(s);
      [t[..WordLen(t)]] + Words(AfterWord(t))
  }

  lemma SkipSpacesIsCstr(s: cstr)
    ensures NUL !in SkipSpaces(s)
  {
  }

  const SEPARATOR: cstr := [DASH, DASH]

  /** One group of words: up to the first "--". */
  function Group(ws: seq<cstr>): (g: seq<cstr>) {
    ws[..FirstOf(ws, SEPARATOR)]
  }

  function AfterGroup(ws: seq<cstr>): (r: seq<cstr>) {
    var i := FirstOf(ws, SEPARATOR);
    if i < |ws| then ws[i + 1..] else []
  }

  /** What is left of the words after `k` calls. */
  function AfterGroups(ws: seq<cstr>, k: nat): (r: seq<cstr>) {
    if k == 0 then ws else AfterGroup(AfterGroups(ws, k - 1))
  }

  /** What the first `k` calls append, in order. */
  function FirstGroups(ws: seq<cstr>, k: nat): (r: seq<cstr>) {
    if k == 0 then [] else FirstGroups(ws, k - 1) + Group(AfterGroups(ws, k - 1))
  }

  function WithoutSeparators(ws: seq<cstr>): (r: seq<cstr>) {
    if ws == [] then [] else (if ws[0] == SEPARATOR then [] else [ws[0]]) + WithoutSeparators(ws[1..])
  }

  /** How a group goes on with the first word. */
  lemma GroupStep(ws: seq<cstr>)
    ensures ws == [] ==> Group(ws) == [] && AfterGroup(ws) == []
    ensures ws != [] && ws[0] == SEPARATOR ==> Group(ws) == [] && AfterGroup(ws) == ws[1..]
    ensures ws != [] && ws[0] != SEPARATOR ==>
      Group(ws) == [ws[0]] + Group(ws[1..]) && AfterGroup(ws) == AfterGroup(ws[1..])
  {
  }

  lemma Assoc(a: seq<cstr>, b: seq<cstr>, c: seq<cstr>)
    ensures (a + b) + c == a + (b + c)
  {
  }

  lemma {:induction false} GroupSplits(ws: seq<cstr>)
    ensures WithoutSeparators(ws) == Group(ws) + WithoutSeparators(AfterGroup(ws))
  {
    GroupStep(ws);
    if ws != [] && ws[0] != SEPARATOR {
      GroupSplits(ws[1..]);
      Assoc([ws[0]], Group(ws[1..]), WithoutSeparators(AfterGroup(ws[1..])));
    }
  }

  /** No word is lost, repeated or reordered over any number of calls. */
  lemma {:induction false} GroupsCoverWords(ws: seq<cstr>, k: nat)
    ensures WithoutSeparators(ws) == FirstGroups(ws, k) + WithoutSeparators(AfterGroups(ws, k))
  {
    if k > 0 {
      GroupsCoverWords(ws, k - 1);
      GroupSplits(AfterGroups(ws, k - 1));
      Assoc(FirstGroups(ws, k - 1), Group(AfterGroups(ws, k - 1)), WithoutSeparators(AfterGroups(ws, k)));
    }
  }
}
