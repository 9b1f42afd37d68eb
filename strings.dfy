/**
 * The operations of Go's `strings` package (and `unicode.IsSpace`) that the
 * range parser and the ARP-output parser rely on. Strings are sequences of
 * characters; every separator the core uses is a single ASCII character.
 */
module GoStrings {
  import opened Wrappers

  /** unicode.IsSpace: the white-space characters `strings.Fields` and
      `strings.TrimSpace` split on and trim. */
  predicate IsSpace(c: char) {
    || c == ' ' || c == '\t' || c == '\n' || c == '\U{000B}' || c == '\U{000C}' || c == '\r'
    || c == '\U{0085}' || c == '\U{00A0}' || c == '\U{1680}'
    || ('\U{2000}' <= c <= '\U{200A}')
    || c == '\U{2028}' || c == '\U{2029}' || c == '\U{202F}' || c == '\U{205F}' || c == '\U{3000}'
  }

  /** strings.Count with a one-character separator: how often `c` occurs in `s`. */
  function Count(s: string, c: char): (n: nat)
    ensures n <= |s|
    ensures n == 0 <==> c !in s
  {
    if |s| == 0 then 0
    else (if s[0] == c then 1 else 0) + Count(s[1..], c)
  }

  /** strings.Split with a one-character separator: the pieces between the
      separators, in order; a string with k separators has k + 1 pieces. */
  function Split(s: string, sep: char): (parts: seq<string>)
    ensures |parts| == Count(s, sep) + 1
    ensures forall i :: 0 <= i < |parts| ==> sep !in parts[i]
    decreases |s|
  {
    if |s| == 0 then [""]
    else
      var rest := Split(s[1..], sep);
      if s[0] == sep then [""] + rest
      else [[s[0]] + rest[0]] + rest[1..]
  }

  /** A string without the separator splits into itself. */
  lemma {:induction false} SplitWhole(s: string, sep: char)
    requires sep !in s
    ensures Split(s, sep) == [s]
  {
    if |s| > 0 {
      SplitWhole(s[1..], sep);
      assert [s[0]] + s[1..] == s;
    }
  }

  /** Splitting `a + sep + b`, where `a` has no separator, yields `a` and then the pieces of `b`. */
  lemma {:induction false} SplitAfterPiece(a: string, b: string, sep: char)
    requires sep !in a
    ensures Split(a + [sep] + b, sep) == [a] + Split(b, sep)
  {
    var s := a + [sep] + b;
    if |a| == 0 {
      assert s[1..] == b;
    } else {
      assert s[1..] == a[1..] + [sep] + b;
      var rest := Split(s[1..], sep);
      assert rest == [a[1..]] + Split(b, sep) by {
        SplitAfterPiece(a[1..], b, sep);
      }
      assert s[0] == a[0] && a[0] != sep;
      assert rest[0] == a[1..] && rest[1..] == Split(b, sep);
      assert [s[0]] + rest[0] == a;
      assert Split(s, sep) == [[s[0]] + rest[0]] + rest[1..];
    }
  }

  /** strings.Join with a one-character separator. */
  function Join(parts: seq<string>, sep: char): string
    requires |parts| > 0
    decreases |parts|
  {
    if |parts| == 1 then parts[0] else parts[0] + [sep] + Join(parts[1..], sep)
  }

  /** Joining the pieces of a split gives back the original string. */
  lemma {:induction false} JoinSplit(s: string, sep: char)
    ensures Join(Split(s, sep), sep) == s
    decreases |s|
  {
    if |s| > 0 {
      var rest := Split(s[1..], sep);
      JoinSplit(s[1..], sep);
      if s[0] == sep {
        assert Split(s, sep)[1..] == rest;
      } else if |rest| == 1 {
        assert [s[0]] + s[1..] == s;
      } else {
        var parts := Split(s, sep);
        assert parts[1..] == rest[1..];
        assert Join(rest, sep) == rest[0] + [sep] + Join(rest[1..], sep);
        assert [s[0]] + s[1..] == s;
      }
    }
  }

  /** Splitting pieces joined by a separator none of them contains gives back the pieces. */
  lemma {:induction false} SplitJoin(parts: seq<string>, sep: char)
    requires |parts| > 0
    requires forall i :: 0 <= i < |parts| ==> sep !in parts[i]
    ensures Split(Join(parts, sep), sep) == parts
    decreases |parts|
  {
    if |parts| == 1 {
      SplitWhole(parts[0], sep);
    } else {
      SplitJoin(parts[1..], sep);
      SplitAfterPiece(parts[0], Join(parts[1..], sep), sep);
      assert [parts[0]] + parts[1..] == parts;
    }
  }

  /** Every character of a join is the separator or a character of one of the pieces. */
  lemma {:induction false} JoinChars(parts: seq<string>, sep: char, p: char -> bool)
    requires |parts| > 0
    requires p(sep)
    requires forall i, j :: 0 <= i < |parts| && 0 <= j < |parts[i]| ==> p(parts[i][j])
    ensures forall k :: 0 <= k < |Join(parts, sep)| ==> p(Join(parts, sep)[k])
    decreases |parts|
  {
    if |parts| > 1 {
      JoinChars(parts[1..], sep, p);
      var tail := Join(parts[1..], sep);
      var s := Join(parts, sep);
      assert s == parts[0] + [sep] + tail;
      forall k | 0 <= k < |s| ensures p(s[k]) {
        if k < |parts[0]| {
          assert s[k] == parts[0][k];
        } else if k == |parts[0]| {
          assert s[k] == sep;
        } else {
          assert s[k] == tail[k - |parts[0]| - 1];
        }
      }
    }
  }

  /** strings.Cut with a one-character separator: the text before and after
      the first separator, or None when there is none. */
  function Cut(s: string, sep: char): (r: Option<(string, string)>)
    ensures r.None? <==> sep !in s
    ensures r.Some? ==> sep !in r.value.0 && s == r.value.0 + [sep] + r.value.1
    decreases |s|
  {
    if |s| == 0 then None
    else if s[0] == sep then Some(([], s[1..]))
    else
      match Cut(s[1..], sep)
      case None => None
      case Some((before, after)) => Some(([s[0]] + before, after))
  }

  /** Cutting `a + sep + b`, where `a` has no separator, yields `a` and `b`. */
  lemma {:induction false} CutAt(a: string, b: string, sep: char)
    requires sep !in a
    ensures Cut(a + [sep] + b, sep) == Some((a, b))
  {
    if |a| > 0 {
      CutAt(a[1..], b, sep);
      assert (a + [sep] + b)[1..] == a[1..] + [sep] + b;
      assert [a[0]] + a[1..] == a;
    } else {
      assert (a + [sep] + b)[1..] == b;
    }
  }

  /** strings.HasPrefix */
  predicate HasPrefix(s: string, prefix: string) {
    |prefix| <= |s| && s[..|prefix|] == prefix
  }

  /** strings.Contains: `sub` occurs somewhere in `s` (the empty string occurs everywhere). */
  predicate Contains(s: string, sub: string)
    decreases |s|
  {
    HasPrefix(s, sub) || (|s| > 0 && Contains(s[1..], sub))
  }

  /** strings.TrimSuffix */
  function TrimSuffix(s: string, suffix: string): (t: string)
    ensures |t| <= |s| && HasPrefix(s, t)
    ensures t == s || t + suffix == s
  {
    if |suffix| <= |s| && s[|s| - |suffix|..] == suffix then s[..|s| - |suffix|] else s
  }

  /** Leading characters removed by strings.TrimSpace. */
  function TrimLeft(s: string): (t: string)
    ensures |t| <= |s| && t == s[|s| - |t|..]
    ensures forall i :: 0 <= i < |s| - |t| ==> IsSpace(s[i])
    ensures |t| > 0 ==> !IsSpace(t[0])
    decreases |s|
  {
    if |s| > 0 && IsSpace(s[0]) then TrimLeft(s[1..]) else s
  }

  /** Trailing characters removed by strings.TrimSpace. */
  function TrimRight(s: string): (t: string)
    ensures |t| <= |s| && t == s[..|t|]
    ensures forall i :: |t| <= i < |s| ==> IsSpace(s[i])
    ensures |t| > 0 ==> !IsSpace(t[|t| - 1])
    decreases |s|
  {
    if |s| > 0 && IsSpace(s[|s| - 1]) then TrimRight(s[..|s| - 1]) else s
  }

  /** strings.TrimSpace */
  function TrimSpace(s: string): string {
    TrimRight(TrimLeft(s))
  }

  /** All characters of `s` are white space. */
  predicate Blank(s: string) {
    forall i :: 0 <= i < |s| ==> IsSpace(s[i])
  }

  /** TrimSpace removes exactly the white space around a text whose first and last characters are not white space. */
  lemma {:induction false} TrimSpaceAround(pre: string, x: string, post: string)
    requires Blank(pre) && Blank(post)
    requires |x| > 0 && !IsSpace(x[0]) && !IsSpace(x[|x| - 1])
    ensures TrimSpace(pre + x + post) == x
  {
    var t := pre + x + post;
    Regroup(pre, x, post, pre + (x + post));
    TrimLeftAround(pre, x + post);
    assert TrimLeft(t) == x + post;
    TrimRightAround(x, post);
    assert TrimSpace(t) == TrimRight(x + post);
  }

  /** Every text is its trimmed text with the white space trimming removed
      put back before and after it. */
  lemma Padding(t: string) returns (pre: string, post: string)
    ensures Blank(pre) && Blank(post) && t == pre + TrimSpace(t) + post
  {
    pre := LeftPadding(t);
    post := RightPadding(TrimLeft(t));
    Regroup(pre, TrimSpace(t), post, t);
  }

  lemma Regroup(a: string, b: string, c: string, t: string)
    requires t == a + (b + c)
    ensures t == a + b + c
  {
  }

  /** The white space TrimLeft removes. */
  lemma {:induction false} LeftPadding(t: string) returns (pre: string)
    ensures Blank(pre) && t == pre + TrimLeft(t)
    decreases |t|
  {
    if |t| > 0 && IsSpace(t[0]) {
      var p := LeftPadding(t[1..]);
      pre := [t[0]] + p;
      assert TrimLeft(t) == TrimLeft(t[1..]);
      assert t == [t[0]] + t[1..];
      Regroup([t[0]], p, TrimLeft(t), t);
      BlankCons(t[0], p);
    } else {
      pre := "";
      assert TrimLeft(t) == t;
    }
  }

  lemma BlankCons(c: char, p: string)
    requires IsSpace(c) && Blank(p)
    ensures Blank([c] + p)
  {
    forall i | 0 <= i < |p| + 1
      ensures IsSpace(([c] + p)[i])
    {
      if i > 0 {
        assert ([c] + p)[i] == p[i - 1];
      }
    }
  }

  /** The white space TrimRight removes. */
  lemma RightPadding(l: string) returns (post: string)
    ensures Blank(post) && l == TrimRight(l) + post
  {
    var x := TrimRight(l);
    post := l[|x|..];
    forall i | 0 <= i < |post|
      ensures IsSpace(post[i])
    {
      assert post[i] == l[|x| + i];
    }
  }

  lemma {:induction false} TrimLeftAround(pre: string, rest: string)
    requires Blank(pre)
    requires |rest| > 0 && !IsSpace(rest[0])
    ensures TrimLeft(pre + rest) == rest
  {
    if |pre| > 0 {
      assert (pre + rest)[1..] == pre[1..] + rest;
      TrimLeftAround(pre[1..], rest);
    }
  }

  lemma {:induction false} TrimRightAround(x: string, post: string)
    requires Blank(post)
    requires |x| > 0 && !IsSpace(x[|x| - 1])
    ensures TrimRight(x + post) == x
  {
    if |post| > 0 {
      var s := x + post;
      assert s[..|s| - 1] == x + post[..|post| - 1];
      TrimRightAround(x, post[..|post| - 1]);
    }
  }

  /** Length of the leading run of non-space characters. */
  function TokenLength(s: string): (n: nat)
    ensures n <= |s|
    ensures forall i :: 0 <= i < n ==> !IsSpace(s[i])
    ensures n < |s| ==> IsSpace(s[n])
    decreases |s|
  {
    if |s| == 0 || IsSpace(s[0]) then 0 else 1 + TokenLength(s[1..])
  }

  /** strings.Fields: the maximal runs of non-space characters, in order. */
  function Fields(s: string): (fields: seq<string>)
    ensures forall i :: 0 <= i < |fields| ==> |fields[i]| > 0
    ensures forall i, j :: 0 <= i < |fields| && 0 <= j < |fields[i]| ==> !IsSpace(fields[i][j])
    decreases |s|
  {
    if |s| == 0 then []
    else if IsSpace(s[0]) then Fields(s[1..])
    else
      var n := TokenLength(s);
      [s[..n]] + Fields(s[n..])
  }

  /** strings.ReplaceAll with a one-character old string and an empty new one:
      `s` with every `c` taken out. */
  function RemoveAll(s: string, c: char): (t: string)
    ensures c !in t && |t| <= |s|
    ensures forall i :: 0 <= i < |t| ==> t[i] in s
    decreases |s|
  {
    if |s| == 0 then ""
    else (if s[0] == c then "" else [s[0]]) + RemoveAll(s[1..], c)
  }

  /** Removing from a concatenation removes from each part. */
  lemma {:induction false} RemoveAllConcat(a: string, b: string, c: char)
    ensures RemoveAll(a + b, c) == RemoveAll(a, c) + RemoveAll(b, c)
    decreases |a|
  {
    if |a| > 0 {
      assert (a + b)[1..] == a[1..] + b;
      RemoveAllConcat(a[1..], b, c);
      var h := if a[0] == c then "" else [a[0]];
      assert RemoveAll(a + b, c) == h + RemoveAll(a[1..] + b, c);
      assert RemoveAll(a, c) == h + RemoveAll(a[1..], c);
    } else {
      assert a + b == b;
    }
  }

  /** unicode.ToUpper restricted to ASCII letters. */
  function UpperChar(c: char): char {
    if 'a' <= c <= 'z' then (c as int - 32) as char else c
  }

  /** strings.ToUpper restricted to ASCII letters. */
  function ToUpper(s: string): string {
    seq(|s|, i requires 0 <= i < |s| => UpperChar(s[i]))
  }

  /** Upper-casing leaves every non-letter, and so every separator count, as it was. */
  lemma {:induction false} CountToUpper(s: string, c: char)
    requires !('a' <= c <= 'z') && !('A' <= c <= 'Z')
    ensures Count(ToUpper(s), c) == Count(s, c)
  {
    if |s| > 0 {
      assert ToUpper(s)[1..] == ToUpper(s[1..]);
      CountToUpper(s[1..], c);
    }
  }
}
