/**
 * The few Python `str` operations the crawler and the text pipeline use,
 * on strings as sequences of characters.
 */
module Text {

  /** `s.split(sep)` for a one-character separator: never empty, no piece holds `sep`. */
  function Split(s: string, sep: char): (parts: seq<string>)
    ensures |parts| >= 1
    ensures forall i :: 0 <= i < |parts| ==> sep !in parts[i]
    decreases |s|
  {
    if s == [] then [[]]
    else
      var rest := Split(s[1..], sep);
      if s[0] == sep then [[]] + rest
      else [[s[0]] + rest[0]] + rest[1..]
  }

  /** `sep.join(parts)` for a one-character separator. */
  function Join(parts: seq<string>, sep: char): string
  {
    if |parts| == 0 then []
    else if |parts| == 1 then parts[0]
    else parts[0] + [sep] + Join(parts[1..], sep)
  }

  /** Python's slice `parts[k:]`, which is empty when `k` is past the end. */
  function DropFirst<T>(parts: seq<T>, k: nat): seq<T>
  {
    if |parts| <= k then [] else parts[k..]
  }

  /** The text after the `k`-th occurrence of `sep`; empty when `s` has fewer. */
  function AfterNth(s: string, sep: char, k: nat): string
    decreases |s|
  {
    if k == 0 then s
    else if s == [] then []
    else if s[0] == sep then AfterNth(s[1..], sep, k - 1)
    else AfterNth(s[1..], sep, k)
  }

  /** Rejoining the pieces of a split from the `k`-th on gives the text after the `k`-th separator. */
  lemma {:induction false} JoinSplitFrom(s: string, sep: char, k: nat)
    ensures Join(DropFirst(Split(s, sep), k), sep) == AfterNth(s, sep, k)
    decreases |s|
  {
    if k == 0 {
      JoinSplit(s, sep);
      assert Split(s, sep)[0..] == Split(s, sep);
    } else if s != [] {
      JoinSplitFrom(s[1..], sep, if s[0] == sep then k - 1 else k);
      var rest := Split(s[1..], sep);
      if s[0] == sep {
        assert DropFirst(Split(s, sep), k) == DropFirst(rest, k - 1);
      } else {
        assert DropFirst(Split(s, sep), k) == DropFirst(rest, k);
      }
    }
  }

  /** Rejoining the pieces of a split gives the text back. */
  lemma {:induction false} JoinSplit(s: string, sep: char)
    ensures Join(Split(s, sep), sep) == s
    decreases |s|
  {
    if s != [] {
      var rest := Split(s[1..], sep);
      JoinSplit(s[1..], sep);
      assert s == [s[0]] + s[1..];
      if s[0] == sep {
        assert Split(s, sep)[1..] == rest;
      } else if |rest| > 1 {
        assert Split(s, sep)[1..] == rest[1..];
        assert Join(rest, sep) == rest[0] + [sep] + Join(rest[1..], sep);
      }
    }
  }

  lemma {:induction false} SplitWithoutSeparator(s: string, sep: char)
    requires sep !in s
    ensures Split(s, sep) == [s]
    decreases |s|
  {
    if s != [] {
      SplitWithoutSeparator(s[1..], sep);
      assert s == [s[0]] + s[1..];
    }
  }

  lemma {:induction false} SplitAfterPiece(p: string, sep: char, t: string)
    requires sep !in p
    ensures Split(p + [sep] + t, sep) == [p] + Split(t, sep)
    decreases |p|
  {
    if p == [] {
      assert ([] + [sep] + t)[1..] == t;
    } else {
      assert (p + [sep] + t)[1..] == p[1..] + [sep] + t;
      SplitAfterPiece(p[1..], sep, t);
      assert p == [p[0]] + p[1..];
    }
  }

  /** Skipping past one more separator skips the piece in front of it. */
  lemma {:induction false} AfterNthPiece(p: string, sep: char, t: string, k: nat)
    requires sep !in p
    ensures AfterNth(p + [sep] + t, sep, k + 1) == AfterNth(t, sep, k)
    decreases |p|
  {
    if p == [] {
      assert ([] + [sep] + t)[1..] == t;
    } else {
      assert (p + [sep] + t)[1..] == p[1..] + [sep] + t;
      AfterNthPiece(p[1..], sep, t, k);
    }
  }

  /** `sep.join(parts).split(sep) == parts` when there is a part and none holds `sep`. */
  lemma {:induction false} SplitJoin(parts: seq<string>, sep: char)
    requires |parts| >= 1
    requires forall i :: 0 <= i < |parts| ==> sep !in parts[i]
    ensures Split(Join(parts, sep), sep) == parts
    decreases |parts|
  {
    if |parts| == 1 {
      SplitWithoutSeparator(parts[0], sep);
    } else {
      SplitJoin(parts[1..], sep);
      SplitAfterPiece(parts[0], sep, Join(parts[1..], sep));
      assert parts == [parts[0]] + parts[1..];
    }
  }

  /** `s.rfind(c)`: the highest index holding `c`, or -1 when there is none. */
  function RFind(s: string, c: char): (i: int)
    ensures -1 <= i < |s|
    ensures 0 <= i ==> s[i] == c
    ensures forall j :: i < j < |s| ==> s[j] != c
    ensures i == -1 <==> c !in s
    decreases |s|
  {
    if s == [] then -1
    else if s[|s| - 1] == c then |s| - 1
    else RFind(s[..|s| - 1], c)
  }

  /** Inserting `c` at index `k` shifts the tail by one and changes nothing else. */
  lemma InsertAt(s: string, k: nat, c: char)
    requires k <= |s|
    ensures var r := s[..k] + [c] + s[k..];
      && |r| == |s| + 1 && r[k] == c && r[..k] + r[k + 1..] == s
      && (forall j :: 0 <= j < k ==> r[j] == s[j])
      && (forall j :: k < j < |r| ==> r[j] == s[j - 1])
      && (k == 0 ==> r == [c] + s)
  {
    var r := s[..k] + [c] + s[k..];
    assert r[k + 1..] == s[k..];
    assert r[..k] == s[..k];
    assert s[..k] + s[k..] == s;
  }

  /**
   * The characters Python's argument-less `strip()` removes: those for which
   * `str.isspace()` holds, that is, tab to carriage return, the four
   * information separators U+001C to U+001F, space, and the Unicode white
   * space and separator characters.
   */
  predicate IsSpace(c: char)
  {
    || '\t' <= c <= '\r'
    || '\U{1C}' <= c <= ' '
    || c == '\U{85}' || c == '\U{A0}' || c == '\U{1680}'
    || '\U{2000}' <= c <= '\U{200A}'
    || c == '\U{2028}' || c == '\U{2029}' || c == '\U{202F}' || c == '\U{205F}' || c == '\U{3000}'
  }

  /** `s` without its leading white space. */
  function StripStart(s: string): string
    decreases |s|
  {
    if s != [] && IsSpace(s[0]) then StripStart(s[1..]) else s
  }

  /** `s` without its trailing white space. */
  function StripEnd(s: string): string
    decreases |s|
  {
    if s != [] && IsSpace(s[|s| - 1]) then StripEnd(s[..|s| - 1]) else s
  }

  /** `s.strip()`. */
  function Strip(s: string): string
  {
    StripEnd(StripStart(s))
  }

  /** What `StripStart` drops is white space, and what it keeps is a suffix that starts with none. */
  lemma {:induction false} StripStartSpec(s: string)
    ensures var r := StripStart(s);
      && |r| <= |s| && r == s[|s| - |r|..]
      && (forall k :: 0 <= k < |s| - |r| ==> IsSpace(s[k]))
      && (r != [] ==> !IsSpace(r[0]))
    decreases |s|
  {
    if s != [] && IsSpace(s[0]) {
      StripStartSpec(s[1..]);
      var r := StripStart(s[1..]);
      assert s[1..][|s| - 1 - |r|..] == s[|s| - |r|..];
      assert forall k :: 1 <= k < |s| - |r| ==> s[1..][k - 1] == s[k];
    } else {
      assert s[0..] == s;
    }
  }

  /** What `StripEnd` drops is white space, and what it keeps is a prefix that ends with none. */
  lemma {:induction false} StripEndSpec(s: string)
    ensures var r := StripEnd(s);
      && |r| <= |s| && r == s[..|r|]
      && (forall k :: |r| <= k < |s| ==> IsSpace(s[k]))
      && (r != [] ==> !IsSpace(r[|r| - 1]))
    decreases |s|
  {
    if s != [] && IsSpace(s[|s| - 1]) {
      var t := s[..|s| - 1];
      StripEndSpec(t);
      var r := StripEnd(t);
      assert t[..|r|] == s[..|r|];
      assert forall k :: |r| <= k < |t| ==> t[k] == s[k];
    } else {
      assert s[..|s|] == s;
    }
  }

  /**
   * `strip()` keeps one contiguous piece of `s`: everything before and after
   * it is white space, and it neither starts nor ends with white space.
   */
  lemma StripSpec(s: string)
    ensures var r := Strip(s); var i := |s| - |StripStart(s)|;
      && 0 <= i && i + |r| <= |s| && r == s[i..i + |r|]
      && (forall k :: 0 <= k < i ==> IsSpace(s[k]))
      && (forall k :: i + |r| <= k < |s| ==> IsSpace(s[k]))
      && (r != [] ==> !IsSpace(r[0]) && !IsSpace(r[|r| - 1]))
  {
    var t := StripStart(s);
    StripStartSpec(s);
    var i := |s| - |t|;
    assert t == s[i..];
    var r := StripEnd(t);
    StripEndSpec(t);
    forall k | i + |r| <= k < |s|
      ensures IsSpace(s[k])
    {
      assert s[k] == t[k - i];
    }
    assert r == t[..|r|] == s[i..i + |r|];
  }
}
