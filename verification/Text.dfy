/**
 Lists stored as one string with a separator, as the channel keys (newline) and the
 channel models (comma) are: joined when written, trimmed and split when read.
 */
module Text {
  function Join(parts: seq<string>, sep: char): string {
    if parts == [] then ""
    else if |parts| == 1 then parts[0]
    else parts[0] + [sep] + Join(parts[1..], sep)
  }

  /** strings.Split: one part more than there are separators. */
  function Split(s: string, sep: char): (parts: seq<string>)
    ensures parts != []
  {
    if s == "" then [""]
    else
      var rest := Split(s[1..], sep);
      if s[0] == sep then [""] + rest else [[s[0]] + rest[0]] + rest[1..]
  }

  function TrimLeft(s: string, sep: char): string {
    if s != "" && s[0] == sep then TrimLeft(s[1..], sep) else s
  }

  function TrimRight(s: string, sep: char): string {
    if s != "" && s[|s| - 1] == sep then TrimRight(s[..|s| - 1], sep) else s
  }

  function Trim(s: string, sep: char): string {
    TrimRight(TrimLeft(s, sep), sep)
  }

  /** The list a stored string stands for. */
  function Parse(text: string, sep: char): seq<string> {
    if text == "" then [] else Split(Trim(text, sep), sep)
  }

  lemma FirstIsIn(s: seq<string>)
    ensures s == [] || s[0] in s
  {
  }

  /** The lists that survive being stored. */
  predicate Storable(parts: seq<string>, sep: char) {
    parts == [] ||
    (parts[0] != "" && parts[|parts| - 1] != "" && forall i :: 0 <= i < |parts| ==> sep !in parts[i])
  }

  function Count(s: string, sep: char): nat {
    if s == "" then 0 else (if s[0] == sep then 1 else 0) + Count(s[1..], sep)
  }

  lemma {:induction false} SplitCount(s: string, sep: char)
    ensures |Split(s, sep)| == 1 + Count(s, sep)
    ensures forall i :: 0 <= i < |Split(s, sep)| ==> sep !in Split(s, sep)[i]
  {
    if s != "" { SplitCount(s[1..], sep); }
  }

  lemma {:induction false} CountConcat(a: string, b: string, sep: char)
    ensures Count(a + b, sep) == Count(a, sep) + Count(b, sep)
  {
    if a == "" {
      assert a + b == b;
    } else {
      CountConcat(a[1..], b, sep);
      assert (a + b)[1..] == a[1..] + b;
    }
  }

  /** A separator-free part in front of a separator is the first part. */
  lemma {:induction false} SplitFront(a: string, b: string, sep: char)
    requires sep !in a
    ensures Split(a + [sep] + b, sep) == [a] + Split(b, sep)
  {
    var s := a + [sep] + b;
    if a == "" {
      assert s[1..] == b;
    } else {
      assert s[1..] == a[1..] + [sep] + b;
      SplitFront(a[1..], b, sep);
      assert [a[0]] + a[1..] == a;
    }
  }

  lemma {:induction false} SplitWhole(a: string, sep: char)
    requires sep !in a
    ensures Split(a, sep) == [a]
  {
    if a != "" {
      SplitWhole(a[1..], sep);
      assert [a[0]] + a[1..] == a;
    }
  }

  lemma {:induction false} SplitJoin(parts: seq<string>, sep: char)
    requires parts != [] && forall i :: 0 <= i < |parts| ==> sep !in parts[i]
    ensures Split(Join(parts, sep), sep) == parts
  {
    if |parts| == 1 {
      SplitWhole(parts[0], sep);
    } else {
      SplitJoin(parts[1..], sep);
      SplitFront(parts[0], Join(parts[1..], sep), sep);
    }
  }

  lemma {:induction false} JoinEnds(parts: seq<string>, sep: char)
    requires parts != []
    ensures var t := Join(parts, sep);
      && (parts[0] != "" ==> t != "" && t[0] == parts[0][0])
      && (parts[0] == "" && |parts| > 1 ==> t != "" && t[0] == sep)
      && (parts[|parts| - 1] != "" ==> t != "" && t[|t| - 1] == parts[|parts| - 1][|parts[|parts| - 1]| - 1])
      && (parts[|parts| - 1] == "" && |parts| > 1 ==> t != "" && t[|t| - 1] == sep)
  {
    if |parts| > 1 { JoinEnds(parts[1..], sep); }
  }

  lemma {:induction false} TrimLeftCount(s: string, sep: char)
    ensures Count(TrimLeft(s, sep), sep) <= Count(s, sep)
    ensures s != "" && s[0] == sep ==> Count(TrimLeft(s, sep), sep) < Count(s, sep)
  {
    if s != "" && s[0] == sep { TrimLeftCount(s[1..], sep); }
  }

  lemma {:induction false} TrimRightCount(s: string, sep: char)
    ensures Count(TrimRight(s, sep), sep) <= Count(s, sep)
    ensures s != "" && s[|s| - 1] == sep ==> Count(TrimRight(s, sep), sep) < Count(s, sep)
  {
    if s != "" && s[|s| - 1] == sep {
      TrimRightCount(s[..|s| - 1], sep);
      assert s == s[..|s| - 1] + [sep];
      CountConcat(s[..|s| - 1], [sep], sep);
    }
  }

  /** Storing and reading back returns the list exactly when it is storable. */
  lemma ParseJoin(parts: seq<string>, sep: char)
    ensures Parse(Join(parts, sep), sep) == parts <==> Storable(parts, sep)
  {
    var t := Join(parts, sep);
    if parts != [] {
      JoinEnds(parts, sep);
      SplitCount(Trim(t, sep), sep);
      if Storable(parts, sep) {
        SplitJoin(parts, sep);
      } else if t != "" && forall i :: 0 <= i < |parts| ==> sep !in parts[i] {
        SplitJoin(parts, sep);
        SplitCount(t, sep);
        TrimLeftCount(t, sep);
        TrimRightCount(TrimLeft(t, sep), sep);
        TrimmedEnd(t, sep);
      }
    }
  }

  lemma {:induction false} TrimmedEnd(s: string, sep: char)
    ensures s != "" && s[|s| - 1] == sep ==> Count(Trim(s, sep), sep) < Count(s, sep)
  {
    TrimLeftCount(s, sep);
    TrimRightCount(TrimLeft(s, sep), sep);
    LeftKeepsEnd(s, sep);
  }

  lemma {:induction false} LeftKeepsEnd(s: string, sep: char)
    ensures var t := TrimLeft(s, sep); t != "" ==> t[|t| - 1] == s[|s| - 1]
    ensures TrimLeft(s, sep) == "" && s != "" ==> s[0] == sep
  {
    if s != "" && s[0] == sep { LeftKeepsEnd(s[1..], sep); }
  }

  // ----------------------------------------------------------------- white space

  /** The white space that strings.TrimSpace removes. */
  predicate IsSpace(c: char) {
    c == ' ' || '\t' <= c <= '\r' || c == '\U{85}' || c == '\U{A0}' || c == '\U{1680}' || '\U{2000}' <= c <= '\U{200A}'
    || c == '\U{2028}' || c == '\U{2029}' || c == '\U{202F}' || c == '\U{205F}' || c == '\U{3000}'
  }

  function TrimSpace(s: string): string {
    if s == "" then ""
    else if IsSpace(s[0]) then TrimSpace(s[1..])
    else if IsSpace(s[|s| - 1]) then TrimSpace(s[..|s| - 1])
    else s
  }

  lemma {:induction false} TrimSpaceTwice(s: string)
    ensures TrimSpace(TrimSpace(s)) == TrimSpace(s)
  {
    if s != "" && IsSpace(s[0]) {
      TrimSpaceTwice(s[1..]);
    } else if s != "" && IsSpace(s[|s| - 1]) {
      TrimSpaceTwice(s[..|s| - 1]);
    }
  }

  lemma {:induction false} TrimSpaceWithin(s: string)
    ensures forall c :: c in TrimSpace(s) ==> c in s
  {
    if s != "" && IsSpace(s[0]) {
      TrimSpaceWithin(s[1..]);
    } else if s != "" && IsSpace(s[|s| - 1]) {
      TrimSpaceWithin(s[..|s| - 1]);
    }
  }

  /** Between these positions is what remains when white space is cut off at both ends. */
  ghost predicate Trims(s: string, i: int, j: int) {
    && 0 <= i <= j <= |s| && (i < j ==> !IsSpace(s[i]) && !IsSpace(s[j - 1]))
    && (forall k :: 0 <= k < i ==> IsSpace(s[k])) && (forall k :: j <= k < |s| ==> IsSpace(s[k]))
  }

  lemma TrimsLeft(s: string, i: int, j: int)
    requires s != "" && IsSpace(s[0]) && Trims(s[1..], i, j)
    ensures Trims(s, i + 1, j + 1) && s[1..][i..j] == s[i + 1..j + 1]
  {
    hide IsSpace;
    assert forall k :: 0 < k < |s| ==> s[k] == s[1..][k - 1];
  }

  lemma TrimsRight(s: string, i: int, j: int)
    requires s != "" && IsSpace(s[|s| - 1]) && Trims(s[..|s| - 1], i, j)
    ensures Trims(s, i, j) && s[..|s| - 1][i..j] == s[i..j]
  {
    hide IsSpace;
  }

  /** Only white space is cut off, on both sides, and none is left at the ends. */
  lemma {:induction false} TrimSpaceIs(s: string) returns (i: int, j: int)
    ensures Trims(s, i, j) && TrimSpace(s) == s[i..j]
  {
    if s == "" {
      return 0, 0;
    } else if IsSpace(s[0]) {
      i, j := TrimSpaceIs(s[1..]);
      TrimsLeft(s, i, j);
      return i + 1, j + 1;
    } else if IsSpace(s[|s| - 1]) {
      i, j := TrimSpaceIs(s[..|s| - 1]);
      TrimsRight(s, i, j);
      return i, j;
    }
    return 0, |s|;
  }

  // ----------------------------------------------------- parts of a joined text

  /** Splitting loses nothing. */
  lemma {:induction false} JoinSplit(s: string, sep: char)
    ensures Join(Split(s, sep), sep) == s
  {
    if s != "" {
      JoinSplit(s[1..], sep);
      var rest := Split(s[1..], sep);
      if s[0] == sep {
        assert ([""] + rest)[1..] == rest;
      } else {
        assert ([[s[0]] + rest[0]] + rest[1..])[1..] == rest[1..];
      }
    }
  }

  /** A separator at the end only adds an empty part. */
  lemma {:induction false} SplitBack(t: string, sep: char)
    ensures Split(t + [sep], sep) == Split(t, sep) + [""]
  {
    if t == "" {
      assert t + [sep] == [sep] && [sep] == "" + [sep] + "";
      SplitFront("", "", sep);
      SplitWhole("", sep);
    } else {
      var n := FirstOf(t, sep);
      if n == |t| {
        SplitWhole(t, sep);
        SplitFront(t, "", sep);
        SplitWhole("", sep);
        assert t + [sep] + "" == t + [sep];
      } else {
        var a, b := t[..n], t[n + 1..];
        assert t == a + [sep] + b && t + [sep] == a + [sep] + (b + [sep]);
        SplitBack(b, sep);
        SplitFront(a, b, sep);
        SplitFront(a, b + [sep], sep);
      }
    }
  }

  /** The first position of a separator, or the length. */
  function FirstOf(t: string, sep: char): (n: nat)
    ensures n <= |t| && sep !in t[..n] && (n < |t| ==> t[n] == sep)
  {
    if t == "" || t[0] == sep then 0 else 1 + FirstOf(t[1..], sep)
  }

  lemma {:induction false} TrimLeftKeepsParts(t: string, sep: char, part: string)
    requires part != "" && part in Split(t, sep)
    ensures part in Split(TrimLeft(t, sep), sep)
  {
    if t != "" && t[0] == sep {
      assert t == "" + [sep] + t[1..];
      SplitFront("", t[1..], sep);
      TrimLeftKeepsParts(t[1..], sep, part);
    }
  }

  lemma {:induction false} TrimRightKeepsParts(t: string, sep: char, part: string)
    requires part != "" && part in Split(t, sep)
    ensures part in Split(TrimRight(t, sep), sep)
  {
    if t != "" && t[|t| - 1] == sep {
      var front := t[..|t| - 1];
      assert t == front + [sep];
      SplitBack(front, sep);
      TrimRightKeepsParts(front, sep, part);
    }
  }

  /** A part without separator is a part of the joined text, whatever the other parts are. */
  lemma {:induction false} JoinedPart(parts: seq<string>, sep: char, i: nat)
    requires i < |parts| && sep !in parts[i]
    ensures parts[i] in Split(Join(parts, sep), sep)
  {
    if |parts| == 1 {
      SplitWhole(parts[0], sep);
    } else if i == 0 {
      SplitFront(parts[0], Join(parts[1..], sep), sep);
    } else {
      JoinedPart(parts[1..], sep, i - 1);
      AfterSeparator(parts[0], Join(parts[1..], sep), sep, parts[i]);
    }
  }

  lemma {:induction false} AfterSeparator(a: string, b: string, sep: char, part: string)
    requires part in Split(b, sep)
    ensures part in Split(a + [sep] + b, sep)
    decreases |a|
  {
    var n := FirstOf(a, sep);
    if n == |a| {
      assert a[..n] == a;
      SplitFront(a, b, sep);
    } else {
      var rest := a[n + 1..];
      AfterSeparator(rest, b, sep, part);
      assert a + [sep] + b == a[..n] + [sep] + (rest + [sep] + b);
      SplitFront(a[..n], rest + [sep] + b, sep);
    }
  }

  /** So it is read back, unless it is empty, by trimming and splitting too. */
  lemma ParsedPart(parts: seq<string>, sep: char, i: nat)
    requires i < |parts| && sep !in parts[i] && parts[i] != ""
    ensures parts[i] in Parse(Join(parts, sep), sep)
  {
    var t := Join(parts, sep);
    JoinedPart(parts, sep, i);
    TrimLeftKeepsParts(t, sep, parts[i]);
    TrimRightKeepsParts(TrimLeft(t, sep), sep, parts[i]);
  }
}
