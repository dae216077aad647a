/** The command-line tokenizers of `fdt_tweak_cmdline` and `efi_tweak_cmdline`: a
    cursor into a NUL-terminated text, words cut out by overwriting the space
    behind them, and one "--"-delimited group of words appended per call. */
module CmdLine {
  import opened Options
  import opened Memory
  import opened BootStrings
  import opened BootArgs

  // ---------------------------------------------------------------- scanning, on values

  /** A text whose first NUL at or after `str` is at `end`. */
  predicate Text(m: seq<byte>, str: nat, end: nat) {
    str <= end < |m| && m[end] == NUL && forall i :: str <= i < end ==> m[i] != NUL
  }

  /** The text still to be read. */
  function RestOf(m: seq<byte>, str: nat, end: nat): (s: cstr)
    requires Text(m, str, end)
  {
    m[str..end]
  }

  /** Where the next word starts and stops. */
  predicate WordSpan(m: seq<byte>, str: nat, end: nat, word: nat, stop: nat) {
    && str <= word <= stop <= end <= |m|
    && (forall i :: str <= i < word ==> m[i] == SPACE) && (word < end ==> m[word] != SPACE)
    && (forall i :: word <= i < stop ==> m[i] != SPACE) && (stop < end ==> m[stop] == SPACE)
  }

  lemma {:induction false} SkipIsDrop(s: seq<byte>, k: nat)
    requires k <= |s| && (forall i :: 0 <= i < k ==> s[i] == SPACE) && (k < |s| ==> s[k] != SPACE)
    ensures SkipSpaces(s) == s[k..]
  {
    if k > 0 {
      SkipIsDrop(s[1..], k - 1);
    }
  }

  lemma {:induction false} WordLenIs(s: seq<byte>, n: nat)
    requires n <= |s| && (forall i :: 0 <= i < n ==> s[i] != SPACE) && (n < |s| ==> s[n] == SPACE)
    ensures WordLen(s) == n
  {
    if n > 0 {
      WordLenIs(s[1..], n - 1);
    }
  }

  /** The first word of a string is `w` spaces in and `n` bytes long. */
  predicate FirstAt(s: seq<byte>, w: nat, n: nat) {
    && w + n <= |s| && (forall i :: 0 <= i < w ==> s[i] == SPACE) && (w < |s| ==> s[w] != SPACE)
    && (forall i :: w <= i < w + n ==> s[i] != SPACE) && (w + n < |s| ==> s[w + n] == SPACE)
  }

  lemma FirstWord(s: cstr, w: nat, n: nat)
    requires FirstAt(s, w, n)
    ensures w == |s| ==> Words(s) == []
    ensures w < |s| ==> Words(s) == [s[w..w + n]] + Words(if w + n < |s| then s[w + n + 1..|s|] else [])
  {
    SkipIsDrop(s, w);
    var t := s[w..];
    DropFirst(s, w, n, t);
    WordLenIs(t, n);
  }

  lemma DropFirst(s: seq<byte>, w: nat, n: nat, t: seq<byte>)
    requires FirstAt(s, w, n) && t == s[w..]
    ensures n <= |t| == |s| - w && (forall i :: 0 <= i < n ==> t[i] != SPACE) && (n < |t| ==> t[n] == SPACE)
    ensures t[..n] == s[w..w + n] && (n < |t| ==> t[n + 1..] == s[w + n + 1..|s|])
  {
  }

  lemma SpanFirst(m: seq<byte>, str: nat, end: nat, word: nat, stop: nat)
    requires WordSpan(m, str, end, word, stop)
    ensures FirstAt(m[str..end], word - str, stop - word)
  {
    var s := m[str..end];
    forall i | 0 <= i < |s|
      ensures s[i] == m[str + i]
    {
    }
  }

  lemma Subslice(m: seq<byte>, a: nat, b: nat, i: nat, j: nat)
    requires a <= i <= j <= b <= |m|
    ensures m[a..b][i - a..j - a] == m[i..j]
  {
    var x, y := m[a..b][i - a..j - a], m[i..j];
    assert |x| == |y|;
    forall k | 0 <= k < |x|
      ensures x[k] == y[k]
    {
    }
  }

  lemma SpanText(m: seq<byte>, str: nat, end: nat, word: nat, stop: nat)
    requires Text(m, str, end) && WordSpan(m, str, end, word, stop)
    ensures var next := if stop < end then stop + 1 else end;
            && (word == stop <==> word == end)
            && Text(m, next, end) && Text(m, word, end) && NUL !in m[word..stop]
  {
  }

  lemma SpanWords(s: cstr, w: nat, n: nat, piece: cstr, rest: cstr)
    requires FirstAt(s, w, n) && piece == s[w..w + n] && rest == (if w + n < |s| then s[w + n + 1..|s|] else [])
    ensures Words(s) == if w == |s| then [] else [piece] + Words(rest)
  {
    FirstWord(s, w, n);
  }

  lemma SpanPieces(m: seq<byte>, str: nat, end: nat, word: nat, stop: nat, s: seq<byte>)
    requires str <= word <= stop <= end <= |m| && s == m[str..end]
    ensures |s| == end - str && s[word - str..stop - str] == m[word..stop]
    ensures stop < end ==> s[stop - str + 1..|s|] == m[stop + 1..end]
    ensures stop == end ==> m[end..end] == []
  {
    Subslice(m, str, end, word, stop);
    if stop < end {
      Subslice(m, str, end, stop + 1, end);
    }
  }

  /** The span found is the head of the list of words; what follows is its tail. */
  lemma SpanIsWord(m: seq<byte>, str: nat, end: nat, word: nat, stop: nat)
    requires Text(m, str, end) && WordSpan(m, str, end, word, stop)
    ensures var next := if stop < end then stop + 1 else end;
            && (word == stop <==> word == end)
            && Text(m, next, end) && Text(m, word, end) && NUL !in m[word..stop]
            && Words(RestOf(m, str, end)) == if word == end then [] else [m[word..stop]] + Words(RestOf(m, next, end))
  {
    SpanText(m, str, end, word, stop);
    SpanFirst(m, str, end, word, stop);
    SpanPieces(m, str, end, word, stop, RestOf(m, str, end));
    SpanWords(RestOf(m, str, end), word - str, stop - word, m[word..stop],
              RestOf(m, if stop < end then stop + 1 else end, end));
  }

  /** Going on at the word, or behind it, drops nothing or exactly the word. */
  lemma SkipLeadingWord(m: seq<byte>, str: nat, end: nat, word: nat, stop: nat)
    requires Text(m, str, end) && WordSpan(m, str, end, word, stop)
    ensures var next := if stop < end then stop + 1 else end;
            var ws := Words(RestOf(m, str, end));
            && Text(m, next, end) && Text(m, word, end)
            && Words(RestOf(m, word, end)) == ws
            && Words(RestOf(m, next, end)) == (if ws == [] then [] else ws[1..])
            && (m[word] == DASH <==> ws != [] && ws[0][..1] == [DASH])
  {
    SpanIsWord(m, str, end, word, stop);
    SpanIsWord(m, word, end, word, stop);
    if word == end {
      SpanIsWord(m, end, end, end, end);
    } else {
      var ws := Words(RestOf(m, str, end));
      assert ws[0] == m[word..stop];
      assert ws[0][..1] == [m[word]];
      assert ws[1..] == Words(RestOf(m, if stop < end then stop + 1 else end, end));
    }
  }

  /** Cutting the word off with a NUL leaves the word and what follows it. */
  lemma CutKeeps(m: seq<byte>, word: nat, stop: nat, end: nat)
    requires Text(m, word, end) && word <= stop <= end && NUL !in m[word..stop]
    ensures var c := m[stop := NUL];
            var next := if stop < end then stop + 1 else end;
            && Text(c, next, end) && At(c, word, m[word..stop] + [NUL])
            && RestOf(c, next, end) == m[next..end]
  {
  }

  // ---------------------------------------------------------------- groups and room

  /** The block can take these words: counts, 16-bit size, memory and slack. */
  ghost predicate HasRoom(bap: Block, g: seq<cstr>)
    reads bap
  {
    && |bap.args| + |g| <= 127
    && HDR + bap.Len() + |Packed(g)| <= 0xFFFF
    && bap.base + bap.Len() + |Packed(g)| <= bap.mem.Length
    && |Packed(g)| <= bap.base
  }

  method AppendArg(bap: Block, w: cstr, ghost g: seq<cstr>)
    requires bap.Valid() && HasRoom(bap, [w] + g)
    modifies bap, bap.mem
    ensures bap.Valid() && bap.envs == old(bap.envs) && bap.trailer == old(bap.trailer)
    ensures bap.args == old(bap.args) + [w] && HasRoom(bap, g)
  {
    assert ([w] + g)[1..] == g;
    PackedAppend(bap.args, [w]);
    PackedOne(w);
    var _ := bap.ArgAdjust(None, Some(w));
  }

  class Tokenizer {
    const text: array<byte>
    var next: nat
    ghost var end: nat

    ghost predicate Valid()
      reads this, text
    {
      Text(text[..], next, end)
    }

    /** The words not yet handed out. */
    ghost function Left(): (ws: seq<cstr>)
      reads this, text
      requires Valid()
    {
      Words(RestOf(text[..], next, end))
    }

    /** `find_next_arg`: the word starts at `word`, the next one is sought from `after`. */
    method FindNextArg(str: nat, terminate: bool) returns (word: nat, after: nat, ghost stop: nat)
      requires Text(text[..], str, end)
      modifies text
      ensures WordSpan(old(text[..]), str, end, word, stop)
      ensures after == if stop < end then stop + 1 else end
      ensures text[..] == if terminate then old(text[..])[stop := NUL] else old(text[..])
    {
      word := str;
      while text[word] == SPACE
        invariant str <= word <= end
        invariant forall i :: str <= i < word ==> text[i] == SPACE
        decreases end - word
      {
        word := word + 1;
      }
      after := word;
      while text[after] != SPACE && text[after] != NUL
        invariant word <= after <= end
        invariant forall i :: word <= i < after ==> text[i] != SPACE
        decreases end - after
      {
        after := after + 1;
      }
      stop := after;
      assert text[after] == text[..][after];
      if text[after] != NUL {
        if terminate {
          text[after] := NUL;
        }
        after := after + 1;
      }
    }

    /** Cut out the next word, if there is one. */
    method NextWord() returns (w: Option<cstr>)
      requires Valid()
      modifies `next, text
      ensures Valid()
      ensures if old(Left()) == [] then w == None && Left() == []
              else w == Some(old(Left())[0]) && Left() == old(Left())[1..]
    {
      ghost var m, str := text[..], next;
      var word;
      ghost var stop;
      word, next, stop := FindNextArg(next, true);
      SpanIsWord(m, str, end, word, stop);
      CutKeeps(m, word, stop, end);
      if text[word] == NUL {
        return None;
      }
      ghost var s := m[word..stop];
      var n := Strlen(text, word, s);
      AtSplit(text[..], word, s, [NUL]);
      assert text[word..word + n] == text[..][word..word + n];
      return Some(text[word..word + n]);
    }

    /** Cut out the next word of the current group; a separator ends the group. */
    method NextInGroup() returns (w: Option<cstr>)
      requires Valid()
      modifies `next, text
      ensures Valid()
      ensures var ws := old(Left());
              if w == None then Group(ws) == [] && Left() == AfterGroup(ws)
              else
                && Group(ws) == [w.value] + Group(Left()) && AfterGroup(ws) == AfterGroup(Left())
                && |Left()| < |ws|
    {
      GroupStep(Left());
      w := NextWord();
      if w == None || w.value == SEPARATOR {
        w := None;
      }
    }

    /** One pass of the appending loop. */
    method MoveWord(bap: Block) returns (more: bool)
      requires Valid() && bap.Valid() && text != bap.mem && HasRoom(bap, Group(Left()))
      modifies `next, text, bap, bap.mem
      ensures Valid() && bap.Valid() && bap.envs == old(bap.envs) && bap.trailer == old(bap.trailer)
      ensures more ==> HasRoom(bap, Group(Left())) && |Left()| < |old(Left())|
      ensures more ==> bap.args + Group(Left()) == old(bap.args) + Group(old(Left()))
      ensures more ==> AfterGroup(Left()) == AfterGroup(old(Left()))
      ensures !more ==> bap.args == old(bap.args) && Group(old(Left())) == [] && Left() == AfterGroup(old(Left()))
    {
      var cmdline := NextInGroup();
      if cmdline == None {
        return false;
      }
      ghost var g := Group(Left());
      assert bap.args + ([cmdline.value] + g) == (bap.args + [cmdline.value]) + g;
      AppendArg(bap, cmdline.value, g);
      return true;
    }

    /** One call of the tweak routine: the words up to the next "--" become
        arguments, in order, and the cursor moves past it. */
    method Tweak(bap: Block)
      requires Valid() && bap.Valid() && text != bap.mem && HasRoom(bap, Group(Left()))
      modifies `next, text, bap, bap.mem
      ensures Valid() && bap.Valid() && bap.envs == old(bap.envs) && bap.trailer == old(bap.trailer)
      ensures bap.args == old(bap.args) + Group(old(Left())) && Left() == AfterGroup(old(Left()))
    {
      var more := true;
      while more
        invariant Valid() && bap.Valid() && bap.envs == old(bap.envs) && bap.trailer == old(bap.trailer)
        invariant if more then
            HasRoom(bap, Group(Left())) && bap.args + Group(Left()) == old(bap.args) + Group(old(Left()))
            && AfterGroup(Left()) == AfterGroup(old(Left()))
          else
            bap.args == old(bap.args) + Group(old(Left())) && Left() == AfterGroup(old(Left()))
        decreases more, |Left()|
      {
        more := MoveWord(bap);
      }
    }

    /** The first call on an EFI command line: the leading word is the name of the
        image and is skipped, unless it looks like an option. */
    method SkipImageName()
      requires Valid()
      modifies `next, text
      ensures Valid() && text[..] == old(text[..])
      ensures var ws := old(Left());
              Left() == if ws != [] && ws[0][..1] != [DASH] then ws[1..] else ws
    {
      ghost var str := next;
      var word, after;
      ghost var stop;
      word, after, stop := FindNextArg(next, false);
      SkipLeadingWord(text[..], str, end, word, stop);
      assert text[word] == text[..][word];
      next := word;
      if text[next] != DASH {
        next := after;
      }
    }
  }
}
