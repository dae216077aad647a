/** The byte-copy core of the startup library: `memcpy`, which copies word by
    word through a sixteen-fold unrolled loop (Duff's device) when both addresses
    are word aligned, and `memmove`, which picks a copying direction and falls
    back on `memcpy`.

    Memory is one array of bytes and an address is an index into it, so aligned
    means divisible by four.  The `unsigned` loop counter is 32 bits wide. */
module Memory {
  type byte = b: int | 0 <= b < 0x100

  const WORD := 4
  const UNSIGNED_RANGE := 0x1_0000_0000

  /** The simultaneous copy: `n` bytes from `src` to `dst`, everything else kept.
      Every source byte is read from the original memory. */
  function Copied<T>(m: seq<T>, dst: nat, src: nat, n: nat): (r: seq<T>)
    requires dst + n <= |m| && src + n <= |m|
    ensures |r| == |m|
  {
    if n == 0 then m else Copied(m, dst, src, n - 1)[dst + n - 1 := m[src + n - 1]]
  }

  lemma {:induction false} CopiedAt<T>(m: seq<T>, dst: nat, src: nat, n: nat, i: nat)
    requires dst + n <= |m| && src + n <= |m| && i < |m|
    ensures Copied(m, dst, src, n)[i] == if dst <= i < dst + n then m[src + (i - dst)] else m[i]
  {
    if n > 0 {
      CopiedAt(m, dst, src, n - 1, i);
    }
  }

  lemma CopiedIs<T>(m: seq<T>, dst: nat, src: nat, n: nat, r: seq<T>)
    requires dst + n <= |m| && src + n <= |m| && |r| == |m|
    requires forall i {:trigger r[i]} :: 0 <= i < |m| ==> r[i] == if dst <= i < dst + n then m[src + (i - dst)] else m[i]
    ensures r == Copied(m, dst, src, n)
  {
    forall i | 0 <= i < |m|
      ensures r[i] == Copied(m, dst, src, n)[i]
    {
      CopiedAt(m, dst, src, n, i);
    }
  }

  /** A forward copy may read a byte after an earlier step wrote `dst`, so it is
      safe exactly in these two layouts; they are the ones `memmove` leaves it. */
  predicate ForwardSafe(dst: nat, src: nat, n: nat) {
    dst <= src || src + n <= dst
  }

  /** The number of passes through the unrolled loop that the length asks for. */
  function DuffGroups(nbytes: nat): (g: nat) {
    (nbytes / WORD + 15) / 16
  }

  /** The passes really made: the counter is truncated to 32 bits and tested
      only after it has been decremented, so a counter of zero wraps around. */
  function GroupsRun(nbytes: nat): (g: nat)
    ensures 1 <= g <= UNSIGNED_RANGE
  {
    var n := DuffGroups(nbytes) % UNSIGNED_RANGE;
    if n == 0 then UNSIGNED_RANGE else n
  }

  /** Words copied by the pass that the `switch` enters in the middle. */
  function FirstGroup(nbytes: nat): (k: nat)
    ensures 1 <= k <= 16
  {
    if nbytes / WORD % 16 == 0 then 16 else nbytes / WORD % 16
  }

  predicate WordCopy(dst: nat, src: nat, nbytes: nat) {
    nbytes >= WORD && src % WORD == 0 && dst % WORD == 0
  }

  /** How many bytes a call copies. */
  function CopyLength(dst: nat, src: nat, nbytes: nat): (n: nat) {
    if WordCopy(dst, src, nbytes)
    then 4 * (FirstGroup(nbytes) + 16 * (GroupsRun(nbytes) - 1)) + nbytes % WORD
    else nbytes
  }

  /** The exact condition under which the truncated counter is harmless. */
  lemma CopyLengthExact(dst: nat, src: nat, nbytes: nat)
    ensures CopyLength(dst, src, nbytes) == nbytes
       <==> !WordCopy(dst, src, nbytes) || DuffGroups(nbytes) <= UNSIGNED_RANGE
    ensures CopyLength(dst, src, nbytes) <= nbytes
  {
    if WordCopy(dst, src, nbytes) {
      var words := nbytes / WORD;
      var g := DuffGroups(nbytes);
      assert words == FirstGroup(nbytes) + 16 * (g - 1) by {
        assert words == 16 * (words / 16) + words % 16;
      }
      assert nbytes == 4 * words + nbytes % WORD;
      assert GroupsRun(nbytes) <= g;
      assert GroupsRun(nbytes) == g <==> g <= UNSIGNED_RANGE;
    }
  }

  /** A length just past the limit: sixteen words are copied instead of 2^36 + 16. */
  lemma CopyLengthWraps()
    ensures CopyLength(0, 0, 0x40_0000_0040) == 64
  {
    assert DuffGroups(0x40_0000_0040) == UNSIGNED_RANGE + 1;
  }

  /** A forward copy in two stretches is the copy of both. */
  lemma {:induction false} ForwardStep<T>(was: seq<T>, dst: nat, src: nat, done: nat, k: nat, n: nat)
    requires dst + n <= |was| && src + n <= |was| && done + k <= n
    requires ForwardSafe(dst, src, n)
    ensures Copied(Copied(was, dst, src, done), dst + done, src + done, k) == Copied(was, dst, src, done + k)
  {
    if k > 0 {
      ForwardStep(was, dst, src, done, k - 1, n);
      CopiedAt(was, dst, src, done, src + done + k - 1);
    }
  }

  method CopyWord(m: array<byte>, d: nat, s: nat)
    requires d + WORD <= m.Length && s + WORD <= m.Length
    modifies m
    ensures m[..] == Copied(old(m[..]), d, s, WORD)
  {
    m[d], m[d + 1], m[d + 2], m[d + 3] := m[s], m[s + 1], m[s + 2], m[s + 3];
    CopiedIs(old(m[..]), d, s, WORD, m[..]);
  }

  method CopyByte(m: array<byte>, d: nat, s: nat)
    requires d < m.Length && s < m.Length
    modifies m
    ensures m[..] == Copied(old(m[..]), d, s, 1)
  {
    m[d] := m[s];
  }

  method CopyWords(m: array<byte>, dst: nat, src: nat, done: nat, k: nat, ghost was: seq<byte>, ghost n: nat)
    requires dst + n <= m.Length && src + n <= m.Length && done + 4 * k <= n && |was| == m.Length
    requires ForwardSafe(dst, src, n)
    requires m[..] == Copied(was, dst, src, done)
    modifies m
    ensures m[..] == Copied(was, dst, src, done + 4 * k)
  {
    var i := 0;
    while i < k
      invariant 0 <= i <= k
      invariant done + 4 * i <= n
      invariant m[..] == Copied(was, dst, src, done + 4 * i)
    {
      var at := done + 4 * i;
      assert at + 4 <= n;
      CopyWord(m, dst + at, src + at);
      ForwardStep(was, dst, src, at, 4, n);
      assert at + 4 == done + 4 * (i + 1);
      i := i + 1;
    }
  }

  /** The unrolled loop: entered in its middle, then whole passes of sixteen. */
  method DuffLoop(m: array<byte>, dst: nat, src: nat, nbytes: nat) returns (done: nat)
    requires dst + nbytes <= m.Length && src + nbytes <= m.Length
    requires ForwardSafe(dst, src, nbytes) && WordCopy(dst, src, nbytes)
    modifies m
    ensures done == CopyLength(dst, src, nbytes) - nbytes % WORD && done <= nbytes
    ensures m[..] == Copied(old(m[..]), dst, src, done)
  {
    CopyLengthExact(dst, src, nbytes);
    var n := DuffGroups(nbytes) % UNSIGNED_RANGE;
    var k := FirstGroup(nbytes);
    ghost var left := GroupsRun(nbytes);
    done := 0;
    while true
      invariant 1 <= left <= UNSIGNED_RANGE && 0 <= k <= 16 && done <= nbytes
      invariant n == if left == UNSIGNED_RANGE then 0 else left
      invariant done + 4 * (k + 16 * (left - 1)) == CopyLength(dst, src, nbytes) - nbytes % WORD
      invariant m[..] == Copied(old(m[..]), dst, src, done)
      decreases left
    {
      CopyWords(m, dst, src, done, k, old(m[..]), nbytes);
      done, k := done + 4 * k, 16;
      n := if n == 0 then UNSIGNED_RANGE - 1 else n - 1;
      left := left - 1;
      if n == 0 {
        break;
      }
    }
  }

  method Memcpy(m: array<byte>, dst: nat, src: nat, nbytes: nat)
    requires dst + nbytes <= m.Length && src + nbytes <= m.Length
    requires ForwardSafe(dst, src, nbytes)
    modifies m
    ensures CopyLength(dst, src, nbytes) <= nbytes
    ensures m[..] == Copied(old(m[..]), dst, src, CopyLength(dst, src, nbytes))
  {
    CopyLengthExact(dst, src, nbytes);
    if WordCopy(dst, src, nbytes) {
      var done := DuffLoop(m, dst, src, nbytes);
      CopyTail(m, dst, src, done, nbytes % WORD, old(m[..]), nbytes);
    } else {
      CopyTail(m, dst, src, 0, nbytes, m[..], nbytes);
    }
  }

  /** The bytewise loop behind the words, or for everything. */
  method CopyTail(m: array<byte>, dst: nat, src: nat, start: nat, count: nat, ghost was: seq<byte>, ghost n: nat)
    requires dst + n <= m.Length && src + n <= m.Length && start + count <= n && |was| == m.Length
    requires ForwardSafe(dst, src, n)
    requires m[..] == Copied(was, dst, src, start)
    modifies m
    ensures m[..] == Copied(was, dst, src, start + count)
  {
    var done, rest := start, count;
    while rest > 0
      invariant 0 <= rest && done + rest == start + count
      invariant m[..] == Copied(was, dst, src, done)
    {
      CopyByte(m, dst + done, src + done);
      ForwardStep(was, dst, src, done, 1, n);
      done, rest := done + 1, rest - 1;
    }
  }

  /** How many bytes `memmove` moves: only its `memcpy` branch can fall short. */
  function MoveLength(dst: nat, src: nat, len: nat): (n: nat) {
    if src < dst && src + len > dst then len else CopyLength(dst, src, len)
  }

  method Memmove(m: array<byte>, dst: nat, src: nat, len: nat)
    requires dst + len <= m.Length && src + len <= m.Length
    modifies m
    ensures MoveLength(dst, src, len) <= len
    ensures m[..] == Copied(old(m[..]), dst, src, MoveLength(dst, src, len))
  {
    if src < dst && src + len > dst {
      var n: int := len;
      while true
        invariant 0 <= n <= len
        invariant forall i {:trigger m[i]} :: 0 <= i < m.Length ==>
          m[i] == if dst + n <= i < dst + len then old(m[src + (i - dst)]) else old(m[i])
        decreases n
      {
        n := n - 1;
        if n == -1 {
          break;
        }
        m[dst + n] := m[src + n];
      }
      CopiedIs(old(m[..]), dst, src, len, m[..]);
    } else {
      Memcpy(m, dst, src, len);
    }
  }

  /** Every move whose group count fits the counter is the simultaneous copy. */
  lemma MoveLengthFits(dst: nat, src: nat, len: nat)
    ensures DuffGroups(len) <= UNSIGNED_RANGE ==> MoveLength(dst, src, len) == len
    ensures len < 0x40_0000_0000 ==> MoveLength(dst, src, len) == len
  {
    CopyLengthExact(dst, src, len);
  }
}
