/**
 * The string primitives the book processor relies on, with Java's semantics:
 * `String.trim` (through `StringUtils.trim`) and `StringUtils.isBlank`
 * (through `Character.isWhitespace`). `IndexOf`, `Split` and `Join` are not
 * called by the processor: they are specification helpers, used to state what
 * the tag string and the bullet lists hold.
 */
module Text {
  import opened Wrappers

  /** `String.trim` removes every leading and trailing character up to U+0020. */
  predicate IsTrimmable(c: char) {
    c as int <= 0x20
  }

  /**
   * `Character.isWhitespace` as of Java 8 (Unicode 6.2): the ASCII controls
   * TAB..CR and FS..US, the space separators other than the no-break ones
   * (U+00A0, U+2007, U+202F), and the line and paragraph separators.
   */
  predicate IsWhitespace(c: char) {
    var n := c as int;
    || 0x09 <= n <= 0x0D
    || 0x1C <= n <= 0x20
    || n == 0x1680 || n == 0x180E
    || 0x2000 <= n <= 0x2006
    || 0x2008 <= n <= 0x200A
    || n == 0x2028 || n == 0x2029 || n == 0x205F || n == 0x3000
  }

  /** `StringUtils.isBlank` on a non-null string: empty, or whitespace only. */
  predicate IsBlank(s: string) {
    forall i | 0 <= i < |s| :: IsWhitespace(s[i])
  }

  /** Drops the leading trimmable characters. */
  function TrimStart(s: string): string
  {
    if s != [] && IsTrimmable(s[0]) then TrimStart(s[1..]) else s
  }

  /** Drops the trailing trimmable characters. */
  function TrimEnd(s: string): string
  {
    if s != [] && IsTrimmable(s[|s| - 1]) then TrimEnd(s[..|s| - 1]) else s
  }

  /**
   * What `TrimStart` keeps is a suffix of its input that does not start with
   * a trimmable character, and everything it drops is trimmable.
   */
  lemma {:induction false} TrimStartShape(s: string)
    ensures var r := TrimStart(s);
            && |r| <= |s| && r == s[|s| - |r|..]
            && (r == [] || !IsTrimmable(r[0]))
            && (forall i | 0 <= i < |s| - |r| :: IsTrimmable(s[i]))
    decreases |s|
  {
    if s != [] && IsTrimmable(s[0]) {
      var r := TrimStart(s[1..]);
      TrimStartShape(s[1..]);
      assert s[1..][|s[1..]| - |r|..] == s[|s| - |r|..];
      forall i | 0 <= i < |s| - |r|
        ensures IsTrimmable(s[i])
      {
        if i > 0 {
          assert s[i] == s[1..][i - 1];
        }
      }
    }
  }

  /**
   * What `TrimEnd` keeps is a prefix of its input that does not end with a
   * trimmable character, and everything it drops is trimmable.
   */
  lemma {:induction false} TrimEndShape(s: string)
    ensures var r := TrimEnd(s);
            && |r| <= |s| && r == s[..|r|]
            && (r == [] || !IsTrimmable(r[|r| - 1]))
            && (forall i | |r| <= i < |s| :: IsTrimmable(s[i]))
    decreases |s|
  {
    if s != [] && IsTrimmable(s[|s| - 1]) {
      var r := TrimEnd(s[..|s| - 1]);
      TrimEndShape(s[..|s| - 1]);
      assert s[..|s| - 1][..|r|] == s[..|r|];
      forall i | |r| <= i < |s|
        ensures IsTrimmable(s[i])
      {
        if i < |s| - 1 {
          assert s[i] == s[..|s| - 1][i];
        }
      }
    }
  }

  /** How many characters `String.trim` cuts from the front of `s`. */
  function TrimmedLead(s: string): nat
  {
    TrimStartShape(s);
    |s| - |TrimStart(s)|
  }

  /** `String.trim`: drops the leading and the trailing trimmable characters. */
  function Trim(s: string): string
  {
    TrimEnd(TrimStart(s))
  }

  /**
   * The result of `String.trim` is the slice of `s` that starts at its first
   * non-trimmable character and ends at its last one; everything cut away is
   * trimmable.
   */
  lemma TrimShape(s: string)
    ensures var r := Trim(s);
            && (r == [] || (!IsTrimmable(r[0]) && !IsTrimmable(r[|r| - 1])))
            && TrimmedLead(s) + |r| <= |s|
            && r == s[TrimmedLead(s)..TrimmedLead(s) + |r|]
            && (forall i | 0 <= i < TrimmedLead(s) :: IsTrimmable(s[i]))
            && (forall i | TrimmedLead(s) + |r| <= i < |s| :: IsTrimmable(s[i]))
  {
    var t := TrimStart(s);
    TrimStartShape(s);
    TrimEndShape(t);
    var r := TrimEnd(t);
    var lo := |s| - |t|;
    assert lo == TrimmedLead(s);
    assert r == s[lo..lo + |r|];
    assert r != [] ==> r[0] == t[0];
    assert forall i | lo + |r| <= i < |s| :: s[i] == t[i - lo];
  }

  /** Trimming an already trimmed string changes nothing. */
  lemma TrimIdempotent(s: string)
    ensures Trim(Trim(s)) == Trim(s)
  {
    var t := Trim(s);
    TrimShape(s);
    assert TrimStart(t) == t;
    assert TrimEnd(t) == t;
  }

  /**
   * Whitespace-only input stays blank after trimming, and input made only of
   * trimmable characters trims to the empty string.
   */
  lemma TrimKeepsBlank(s: string)
    ensures IsBlank(s) ==> IsBlank(Trim(s))
    ensures (forall i | 0 <= i < |s| :: IsTrimmable(s[i])) ==> Trim(s) == []
  {
    var r := Trim(s);
    var lo := TrimmedLead(s);
    TrimShape(s);
    assert forall i | 0 <= i < |r| :: r[i] == s[lo + i];
  }

  /** Leading trimmable characters in front of a string that starts with a kept one are cut. */
  lemma {:induction false} TrimStartPadded(front: string, s: string)
    requires forall i | 0 <= i < |front| :: IsTrimmable(front[i])
    requires s == [] || !IsTrimmable(s[0])
    ensures TrimStart(front + s) == s
    decreases |front|
  {
    if front != [] {
      assert (front + s)[1..] == front[1..] + s;
      TrimStartPadded(front[1..], s);
    } else {
      assert front + s == s;
    }
  }

  /** Trailing trimmable characters after a string that ends with a kept one are cut. */
  lemma {:induction false} TrimEndPadded(s: string, back: string)
    requires forall i | 0 <= i < |back| :: IsTrimmable(back[i])
    requires s == [] || !IsTrimmable(s[|s| - 1])
    ensures TrimEnd(s + back) == s
    decreases |back|
  {
    if back != [] {
      var b' := back[..|back| - 1];
      assert (s + back)[..|s + back| - 1] == s + b';
      TrimEndPadded(s, b');
    } else {
      assert s + back == s;
    }
  }

  /** Two runs of trimmable characters trim to nothing. */
  lemma TrimAllTrimmable(front: string, back: string)
    requires forall i | 0 <= i < |front| :: IsTrimmable(front[i])
    requires forall i | 0 <= i < |back| :: IsTrimmable(back[i])
    ensures Trim(front + back) == []
  {
    var t := front + back;
    forall i | 0 <= i < |t|
      ensures IsTrimmable(t[i])
    {
      if i < |front| {
        assert t[i] == front[i];
      } else {
        assert t[i] == back[i - |front|];
      }
    }
    TrimKeepsBlank(t);
  }

  /**
   * Trimming a string that starts and ends with kept characters, padded with
   * trimmable ones, gives back that string.
   */
  lemma TrimPadded(front: string, s: string, back: string)
    requires forall i | 0 <= i < |front| :: IsTrimmable(front[i])
    requires forall i | 0 <= i < |back| :: IsTrimmable(back[i])
    requires s == [] || (!IsTrimmable(s[0]) && !IsTrimmable(s[|s| - 1]))
    ensures Trim(front + s + back) == s
  {
    if s == [] {
      assert front + s + back == front + back;
      TrimAllTrimmable(front, back);
    } else {
      assert front + s + back == front + (s + back);
      assert (s + back)[0] == s[0];
      TrimStartPadded(front, s + back);
      TrimEndPadded(s, back);
    }
  }

  /** The position of the first occurrence of `c` in `s`, if any. */
  function IndexOf(s: string, c: char): (r: Option<nat>)
    ensures r.Some? ==> r.value < |s| && s[r.value] == c
    ensures r.Some? ==> forall i | 0 <= i < r.value :: s[i] != c
    ensures r.None? <==> c !in s
  {
    if s == [] then None
    else if s[0] == c then Some(0)
    else match IndexOf(s[1..], c)
      case None => None
      case Some(k) => Some(k + 1)
  }

  /** Splits `s` at every occurrence of `sep`; no piece contains `sep`. */
  function Split(s: string, sep: char): (r: seq<string>)
    ensures |r| >= 1
    ensures forall i | 0 <= i < |r| :: sep !in r[i]
    decreases |s|
  {
    match IndexOf(s, sep)
    case None => [s]
    case Some(k) => [s[..k]] + Split(s[k + 1..], sep)
  }

  /** Joins the pieces with `sep` between neighbours. */
  function Join(pieces: seq<string>, sep: char): string
  {
    if pieces == [] then ""
    else if |pieces| == 1 then pieces[0]
    else pieces[0] + [sep] + Join(pieces[1..], sep)
  }

  /** Splitting loses nothing: joining the pieces gives back the input. */
  lemma {:induction false} JoinSplit(s: string, sep: char)
    ensures Join(Split(s, sep), sep) == s
    decreases |s|
  {
    match IndexOf(s, sep)
    case None =>
    case Some(k) =>
      var rest := Split(s[k + 1..], sep);
      JoinSplit(s[k + 1..], sep);
      var pieces := [s[..k]] + rest;
      assert Split(s, sep) == pieces;
      assert pieces[0] == s[..k] && pieces[1..] == rest && |pieces| >= 2;
      assert Join(pieces, sep) == s[..k] + [sep] + s[k + 1..];
      CutAt(s, k);
  }

  /** A string is the part before position `k`, the character at `k`, and the rest. */
  lemma CutAt(s: string, k: nat)
    requires k < |s|
    ensures s == s[..k] + [s[k]] + s[k + 1..]
  {
    assert s[..k] + [s[k]] == s[..k + 1];
    assert s[..k + 1] + s[k + 1..] == s;
  }

  /** Splitting a string that starts with a separator-free head and `sep`. */
  lemma SplitAfterHead(head: string, sep: char, tail: string)
    requires sep !in head
    ensures Split(head + [sep] + tail, sep) == [head] + Split(tail, sep)
  {
    var s := head + [sep] + tail;
    assert s[|head|] == sep;
    assert forall i | 0 <= i < |head| :: s[i] == head[i];
    assert IndexOf(s, sep) == Some(|head|);
    assert s[..|head|] == head && s[|head| + 1..] == tail;
  }
}
