/** The boot argument block: packed argument and environment strings edited in
    place by `do_adjust`, extended word by word from a command line, and read back
    by `setup_cmdline`.

    The block lives in `mem` from index `base` on; the bytes before it are slack,
    because the right shift of `do_adjust` may read (never write) some of them. */
module BootArgs {
  import opened Options
  import opened Memory
  import opened BootStrings

  /** offsetof(struct bootargs_entry, args): sizes count the header too. */
  const HDR := 8
  const MAX_VEC := 19

  /** The bytes `b` stand at address `p`. */
  predicate At(m: seq<byte>, p: nat, b: seq<byte>) {
    p + |b| <= |m| && m[p..p + |b|] == b
  }

  lemma AtSplit(m: seq<byte>, p: nat, x: seq<byte>, y: seq<byte>)
    ensures At(m, p, x + y) <==> At(m, p, x) && At(m, p + |x|, y)
  {
    if p + |x| + |y| <= |m| {
      var b := m[p..p + |x| + |y|];
      assert b[..|x|] == m[p..p + |x|] && b[|x|..] == m[p + |x|..p + |x| + |y|];
      assert b == b[..|x|] + b[|x|..];
      assert (x + y)[..|x|] == x && (x + y)[|x|..] == y;
    }
  }

  /** Bytes written over memory. */
  function Patched(m: seq<byte>, p: nat, b: seq<byte>): (r: seq<byte>)
    requires p + |b| <= |m|
  {
    m[..p] + b + m[p + |b|..]
  }

  /** The move and the copy of `do_adjust`: `e` between `a` and `r` becomes `n`. */
  lemma SpliceBytes(m: seq<byte>, base: nat, p: nat, a: seq<byte>, e: seq<byte>, r: seq<byte>, n: seq<byte>)
    requires base + |a| == p && p + |n| + |r| <= |m| && |n| <= p + |e|
    requires At(m, base, a + e + r)
    ensures var moved := Copied(m, p, p + |e| - |n|, |r| + |n|);
            At(Patched(moved, p, n), base, a + n + r)
  {
    var from, moved := p + |e| - |n|, Copied(m, p, p + |e| - |n|, |r| + |n|);
    var after := Patched(moved, p, n);
    AtSplit(m, base, a + e, r);
    AtSplit(m, base, a, e);
    SpliceFront(m, base, p, from, |r| + |n|, a);
    SpliceBack(m, p, from, |n|, r);
    PatchedAt(moved, p, n, base, a, r);
    AtSplit(after, base, a + n, r);
    AtSplit(after, base, a, n);
  }

  /** What lies in front of the destination is not moved. */
  lemma SpliceFront(m: seq<byte>, base: nat, p: nat, from: nat, len: nat, a: seq<byte>)
    requires base + |a| == p && p + len <= |m| && from + len <= |m| && At(m, base, a)
    ensures At(Copied(m, p, from, len), base, a)
  {
    forall i | base <= i < p
      ensures Copied(m, p, from, len)[i] == m[i]
    {
      CopiedAt(m, p, from, len, i);
    }
    assert Copied(m, p, from, len)[base..p] == m[base..p];
  }

  /** What lies behind the entry is moved behind the new one. */
  lemma SpliceBack(m: seq<byte>, p: nat, from: nat, n: nat, r: seq<byte>)
    requires p + n + |r| <= |m| && At(m, from + n, r)
    ensures At(Copied(m, p, from, |r| + n), p + n, r)
  {
    var c := Copied(m, p, from, |r| + n);
    forall j | 0 <= j < |r|
      ensures c[p + n..p + n + |r|][j] == r[j]
    {
      CopiedAt(m, p, from, |r| + n, p + n + j);
      assert m[from + n..from + n + |r|][j] == m[from + n + j];
    }
    assert c[p + n..p + n + |r|] == r;
  }

  /** Bytes written between two stretches leave both alone. */
  lemma PatchedAt(m: seq<byte>, p: nat, n: seq<byte>, base: nat, a: seq<byte>, r: seq<byte>)
    requires base + |a| == p && p + |n| <= |m| && At(m, base, a) && At(m, p + |n|, r)
    ensures At(Patched(m, p, n), base, a) && At(Patched(m, p, n), p, n) && At(Patched(m, p, n), p + |n|, r)
  {
    var after := Patched(m, p, n);
    assert after[base..p] == m[base..p];
    assert after[p..p + |n|] == n;
    assert after[p + |n|..p + |n| + |r|] == m[p + |n|..p + |n| + |r|];
  }

  method WriteBytes(m: array<byte>, p: nat, b: seq<byte>)
    requires p + |b| <= m.Length
    modifies m
    ensures m[..] == Patched(old(m[..]), p, b)
  {
    var k := 0;
    while k < |b|
      invariant 0 <= k <= |b|
      invariant forall i {:trigger m[i]} :: 0 <= i < m.Length ==> m[i] == if p <= i < p + k then b[i - p] else old(m[i])
    {
      m[p + k] := b[k];
      k := k + 1;
    }
  }

  /** `strlen`: the string at `p` is known to be `s`. */
  method Strlen(m: array<byte>, p: nat, ghost s: cstr) returns (n: nat)
    requires At(m[..], p, s + [NUL])
    ensures n == |s|
  {
    ghost var b := m[p..p + |s| + 1];
    assert b == s + [NUL];
    n := 0;
    while m[p + n] != NUL
      invariant n <= |s|
      invariant forall i :: 0 <= i <= |s| ==> b[i] == m[p + i]
      decreases |s| - n
    {
      n := n + 1;
    }
  }

  /** `strcmp` against the string at `p`, which is known to be `s`. */
  method Strcmp(m: array<byte>, p: nat, len: nat, other: cstr, ghost s: cstr) returns (same: bool)
    requires At(m[..], p, s + [NUL]) && len == |s|
    ensures same <==> s == other
  {
    AtSplit(m[..], p, s, [NUL]);
    assert m[p..p + len] == m[..][p..p + len];
    same := m[p..p + len] == other;
  }

  lemma FirstFound(l: seq<cstr>, o: cstr, k: nat)
    requires k < |l| && l[k] == o && forall j :: 0 <= j < k ==> l[j] != o
    ensures FirstOf(l, o) == k && o in l
  {
  }

  /** Packed strings, seen from memory: string `k` starts where the ones before end. */
  lemma EntryAt(m: seq<byte>, p: nat, l: seq<cstr>, k: nat)
    requires k < |l| && At(m, p, Packed(l))
    ensures At(m, p + |Packed(l[..k])|, l[k] + [NUL])
    ensures |Packed(l[..k + 1])| == |Packed(l[..k])| + |l[k]| + 1
  {
    PackedAt(l, k);
    var a, b, c := Packed(l[..k]), l[k] + [NUL], Packed(l[k + 1..]);
    AtSplit(m, p, a + b, c);
    AtSplit(m, p, a, b);
    assert l[..k + 1] == l[..k] + [l[k]];
    PackedAppend(l[..k], [l[k]]);
    PackedOne(l[k]);
  }

  lemma StringAt(m: seq<byte>, q: nat, s: cstr)
    requires At(m, q, s + [NUL])
    ensures CString(m, q) == s
  {
    AtSplit(m, q, s, [NUL]);
    assert m[q + |s|] == m[q + |s|..q + |s| + 1][0];
    CStringIs(m, q, s);
  }

  /** Pointers that denote the first strings of a list. */
  predicate Denotes(m: seq<byte>, vec: seq<nat>, l: seq<cstr>) {
    |vec| <= |l| && forall k :: 0 <= k < |vec| ==> vec[k] <= |m| && CString(m, vec[k]) == l[k]
  }

  lemma DenotesNext(m: seq<byte>, vec: seq<nat>, l: seq<cstr>, q: nat)
    requires Denotes(m, vec, l) && |vec| < |l| && At(m, q, l[|vec|] + [NUL])
    ensures Denotes(m, vec + [q], l)
  {
    StringAt(m, q, l[|vec|]);
  }

  /** The first loop of `do_adjust`: step over whole strings. */
  method SkipStrings(m: array<byte>, p: nat, n: nat, ghost l: seq<cstr>) returns (q: nat)
    requires |l| == n && At(m[..], p, Packed(l))
    ensures q == p + |Packed(l)|
  {
    q := p;
    var k := 0;
    while k < n
      invariant 0 <= k <= n && q == p + |Packed(l[..k])|
    {
      EntryAt(m[..], p, l, k);
      var len := Strlen(m, q, l[k]);
      q, k := q + len + 1, k + 1;
    }
    assert l[..k] == l;
  }

  /** The second loop: look for the string to replace, or for the end of the list. */
  method FindEntry(m: array<byte>, p: nat, n: nat, was: Option<cstr>, ghost l: seq<cstr>)
    returns (found: bool, q: nat, subLen: nat)
    requires |l| == n && At(m[..], p, Packed(l))
    ensures found <==> Applies(l, was)
    ensures found ==> q == p + |Packed(l[..EditIndex(l, was)])| && subLen == |Removed(was)|
  {
    q := p;
    var k := 0;
    while k < n
      invariant 0 <= k <= n && q == p + |Packed(l[..k])|
      invariant was.Some? ==> forall j :: 0 <= j < k ==> l[j] != was.value
    {
      EntryAt(m[..], p, l, k);
      var len := Strlen(m, q, l[k]);
      var same := false;
      if was.Some? {
        same := Strcmp(m, q, len, was.value, l[k]);
      }
      if same {
        FirstFound(l, was.value, k);
        return true, q, len + 1;
      }
      q, k := q + len + 1, k + 1;
    }
    found, subLen := was.None?, 0;
    assert l[..k] == l;
  }

  ghost function EditTail(l: seq<cstr>, was: Option<cstr>): (t: seq<cstr>)
    requires Applies(l, was)
  {
    if was.None? then [] else l[EditIndex(l, was) + 1..]
  }

  lemma Regroup(pre: seq<byte>, x: seq<byte>, y: seq<byte>, t: seq<byte>, post: seq<byte>)
    ensures pre + (x + y + t) + post == (pre + x) + y + (t + post)
  {
  }

  lemma ArgLayout(args: seq<cstr>, envs: seq<cstr>, trailer: seq<byte>)
    ensures Packed([]) + Packed(args) + (Packed(envs) + trailer) == Packed(args) + Packed(envs) + trailer
  {
  }

  lemma EditLayout(pre: seq<byte>, l: seq<cstr>, post: seq<byte>, was: Option<cstr>, now: Option<cstr>)
    requires (was.Some? || now.Some?) && Applies(l, was)
    ensures var a, r := pre + Packed(l[..EditIndex(l, was)]), Packed(EditTail(l, was)) + post;
            && pre + Packed(l) + post == a + Removed(was) + r
            && pre + Packed(Edited(l, was, now)) + post == a + Put(now) + r
  {
    EditedPacked(l, was, now);
    var x, t := Packed(l[..EditIndex(l, was)]), Packed(EditTail(l, was));
    Regroup(pre, x, Removed(was), t, post);
    Regroup(pre, x, Put(now), t, post);
  }

  class Block {
    const mem: array<byte>
    const base: nat
    var sizeLo: byte
    var sizeHi: byte
    var argc: int
    var envc: int
    ghost var args: seq<cstr>
    ghost var envs: seq<cstr>
    ghost var trailer: seq<byte>

    /** Length of the strings and the trailer, without the header. */
    function Len(): int
      reads this
    {
      sizeLo + 0x100 * sizeHi - HDR
    }

    ghost function Content(): seq<byte>
      reads this
    {
      Packed(args) + Packed(envs) + trailer
    }

    ghost predicate Valid()
      reads this, mem
    {
      && argc == |args| <= 127 && envc == |envs| <= 127
      && Len() == |Content()| && At(mem[..], base, Content())
    }

    /** There is room for the edit, and slack for the bytes a right shift reads. */
    ghost predicate Room(l: seq<cstr>, was: Option<cstr>, now: Option<cstr>)
      reads this
    {
      Applies(l, was) ==>
        && HDR + Len() - |Removed(was)| + |Put(now)| <= 0xFFFF
        && base + Len() - |Removed(was)| + |Put(now)| <= mem.Length
        && |Put(now)| <= base
        && (was.None? ==> |l| < 127)
    }

    /** `do_adjust`: search and splice one of the two lists (the callers keep its count). */
    method DoAdjust(was: Option<cstr>, now: Option<cstr>, start: nat, num: nat,
                    ghost skipped: seq<cstr>, ghost l: seq<cstr>, ghost post: seq<byte>) returns (done: bool)
      requires (was.Some? || now.Some?) && |skipped| == start && |l| == num && Room(l, was, now)
      requires Len() == |Packed(skipped)| + |Packed(l)| + |post|
      requires At(mem[..], base, Packed(skipped) + Packed(l) + post)
      modifies `sizeLo, `sizeHi, mem
      ensures done <==> Applies(l, was)
      ensures !done ==> mem[..] == old(mem[..]) && Len() == old(Len())
      ensures done ==> Len() == |Packed(skipped)| + |Packed(Edited(l, was, now))| + |post|
      ensures done ==> At(mem[..], base, Packed(skipped) + Packed(Edited(l, was, now)) + post)
    {
      ghost var pre := Packed(skipped);
      AtSplit(mem[..], base, pre + Packed(l), post);
      AtSplit(mem[..], base, pre, Packed(l));
      var p := SkipStrings(mem, base, start, skipped);
      var q, subLen;
      done, q, subLen := FindEntry(mem, p, num, was, l);
      if done {
        EditLayout(pre, l, post, was, now);
        ghost var a, r := pre + Packed(l[..EditIndex(l, was)]), Packed(EditTail(l, was)) + post;
        Splice(q, subLen, Put(now), a, Removed(was), r);
      }
    }

    /** `bootstrap_arg_adjust`: the environment and the trailer are not touched. */
    method ArgAdjust(was: Option<cstr>, now: Option<cstr>) returns (done: bool)
      requires Valid() && (was.Some? || now.Some?) && Room(args, was, now)
      modifies this, mem
      ensures Valid() && envs == old(envs) && trailer == old(trailer)
      ensures done <==> Applies(old(args), was)
      ensures args == if done then Edited(old(args), was, now) else old(args)
    {
      ghost var post := Packed(envs) + trailer;
      ArgLayout(args, envs, trailer);
      done := DoAdjust(was, now, 0, argc, [], args, post);
      if done {
        EditedPacked(args, was, now);
        argc := argc + (if was.None? then 1 else if now.None? then -1 else 0);
        args := Edited(args, was, now);
        ArgLayout(args, envs, trailer);
      }
    }

    /** `bootstrap_env_adjust`: the arguments and the trailer are not touched. */
    method EnvAdjust(was: Option<cstr>, now: Option<cstr>) returns (done: bool)
      requires Valid() && (was.Some? || now.Some?) && Room(envs, was, now)
      modifies this, mem
      ensures Valid() && args == old(args) && trailer == old(trailer)
      ensures done <==> Applies(old(envs), was)
      ensures envs == if done then Edited(old(envs), was, now) else old(envs)
    {
      done := DoAdjust(was, now, argc, envc, args, envs, trailer);
      if done {
        EditedPacked(envs, was, now);
        envc := envc + (if was.None? then 1 else if now.None? then -1 else 0);
        envs := Edited(envs, was, now);
      }
    }

    /** The byte shift, the copy and the new size. */
    method Splice(p: nat, subLen: nat, bytes: seq<byte>, ghost a: seq<byte>, ghost e: seq<byte>, ghost r: seq<byte>)
      requires Len() == |a| + |e| + |r| && subLen == |e| && p == base + |a|
      requires At(mem[..], base, a + e + r)
      requires |bytes| <= base && base + |a| + |bytes| + |r| <= mem.Length && HDR + |a| + |bytes| + |r| <= 0xFFFF
      modifies `sizeLo, `sizeHi, mem
      ensures Len() == |a| + |bytes| + |r|
      ensures At(mem[..], base, a + bytes + r)
    {
      var total := Len() + HDR;
      var diff := |bytes| - subLen;
      var src := p - diff;
      var len := base + (total - HDR) - src;
      SpliceBytes(mem[..], base, p, a, e, r, bytes);
      assert src == p + |e| - |bytes| && len == |r| + |bytes|;
      MoveLengthFits(p, src, len);
      Memmove(mem, p, src, len);
      WriteBytes(mem, p, bytes);
      SetSize(total + diff);
    }

    method SetSize(total: nat)
      requires HDR <= total <= 0xFFFF
      modifies `sizeLo, `sizeHi
      ensures Len() == total - HDR
    {
      sizeLo := total % 0x100;
      sizeHi := total / 0x100;
    }

    /** One vector of `setup_cmdline`: pointers to the first nineteen strings. */
    method ParseVector(p: nat, count: nat, ghost l: seq<cstr>) returns (vec: seq<nat>, q: nat)
      requires |l| == count && At(mem[..], p, Packed(l))
      ensures q == p + |Packed(l)|
      ensures |vec| == if count < MAX_VEC then count else MAX_VEC
      ensures Denotes(mem[..], vec, l)
    {
      vec, q := [], p;
      var i := 0;
      while i < count
        invariant 0 <= i <= count && q == p + |Packed(l[..i])|
        invariant |vec| == if i < MAX_VEC then i else MAX_VEC
        invariant Denotes(mem[..], vec, l)
      {
        EntryAt(mem[..], p, l, i);
        if i < MAX_VEC {
          DenotesNext(mem[..], vec, l, q);
          vec := vec + [q];
        }
        var len := Strlen(mem, q, l[i]);
        q, i := q + len + 1, i + 1;
      }
      assert l[..i] == l;
    }

    /** `setup_cmdline`: the vectors denote the first nineteen arguments and
        environment strings, in order. */
    method SetupCmdline() returns (argv: seq<nat>, envv: seq<nat>)
      requires Valid()
      ensures |argv| == if |args| < MAX_VEC then |args| else MAX_VEC
      ensures |envv| == if |envs| < MAX_VEC then |envs| else MAX_VEC
      ensures Denotes(mem[..], argv, args) && Denotes(mem[..], envv, envs)
    {
      AtSplit(mem[..], base, Packed(args) + Packed(envs), trailer);
      AtSplit(mem[..], base, Packed(args), Packed(envs));
      var p;
      argv, p := ParseVector(base, argc, args);
      envv, p := ParseVector(p, envc, envs);
    }
  }
}
