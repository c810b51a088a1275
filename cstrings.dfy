/**
 * The string helpers of util.c: copy_string, convert_bool, clean_path,
 * join_paths, and the `strtok(value, ";")` split that config_handler uses
 * on menu lines.
 */
module CStrings {
  import opened Wrappers

  /**
   * copy_string: an empty source gives NULL; anything else gives a fresh copy.
   * The model cannot tell a copy from its source, so a copy is the same string.
   */
  function CopyString(s: string): (r: Option<string>)
    ensures r == None <==> s == []
    ensures r.Some? ==> r.value == s
  {
    if |s| != 0 then Some(s) else None
  }

  /** What a NULL-or-string pointer reads as once copied back: NULL reads as "". */
  function TextOf(p: Option<string>): string {
    if p.Some? then p.value else []
  }

  /** Copying and reading back loses nothing: NULL stands for exactly the empty string. */
  lemma CopyStringRoundTrip(s: string)
    ensures TextOf(CopyString(s)) == s
    ensures CopyString(TextOf(CopyString(s))) == CopyString(s)
  {
  }

  /** convert_bool: "true" and "false" exactly, anything else is the caller's default. */
  function ConvertBool(s: string, default: bool): (b: bool)
    ensures s == BoolText(true) ==> b
    ensures s == BoolText(false) ==> !b
    ensures b != default ==> s == BoolText(b)
  {
    if s == "true" then true
    else if s == "false" then false
    else default
  }

  /** The text a boolean setting is written as. */
  function BoolText(b: bool): string {
    if b then "true" else "false"
  }

  /**
   * convert_bool reads back the two literals whatever the default, and every
   * other text (including other spellings such as "True") gives the default.
   */
  lemma ConvertBoolSpec(s: string, default: bool)
    ensures forall b: bool :: ConvertBool(BoolText(b), default) == b
    ensures s != "true" && s != "false" ==> ConvertBool(s, default) == default
    ensures ConvertBool(s, default) != default ==> s == BoolText(!default)
  {
  }

  /** clean_path on the string value: strip one enclosing pair of '"' when the text is at least 3 long. */
  function CleanPath(s: string): (r: string)
    ensures s == ['"'] + r + ['"'] <==> |s| >= 3 && s[0] == '"' && s[|s| - 1] == '"'
    ensures s != ['"'] + r + ['"'] ==> r == s
    ensures s != [] ==> r != []
  {
    if |s| >= 3 && s[0] == '"' && s[|s| - 1] == '"' then
      var r := s[1..|s| - 1];
      assert s == ['"'] + r + ['"'];
      r
    else s
  }

  /** Quoting a non-empty path and cleaning it gives the path back. */
  lemma CleanPathOfQuoted(s: string)
    requires s != []
    ensures CleanPath(['"'] + s + ['"']) == s
  {
    var q := ['"'] + s + ['"'];
    assert q[1..|q| - 1] == s;
  }

  /**
   * Only one pair is stripped, a text not starting with '"' is left alone, and
   * so is the two-character text "" (too short to hold a path).
   */
  lemma CleanPathStripsAtMostOnePair(s: string)
    ensures |CleanPath(s)| == |s| || |CleanPath(s)| == |s| - 2
    ensures s == [] || s[0] != '"' || s[|s| - 1] != '"' ==> CleanPath(s) == s
    ensures |s| < 3 ==> CleanPath(s) == s
    ensures CleanPath("\"\"") == "\"\""
  {
  }

  /** A NUL-terminated string of length n held in a char buffer. */
  ghost predicate CString(buf: seq<char>, n: nat) {
    n < |buf| && buf[n] == '\0' && forall i :: 0 <= i < n ==> buf[i] != '\0'
  }

  /**
   * clean_path(path) on the buffer itself: the closing quote becomes the
   * terminator and the rest of the string, terminator included, moves one
   * place to the left.
   */
  method CleanPathInPlace(path: array<char>, n: nat)
    requires CString(path[..], n)
    modifies path
    ensures var s := old(path[..n]);
      if |s| >= 3 && s[0] == '"' && s[|s| - 1] == '"'
      then path[..] == old(path[1..n - 1]) + ['\0', '\0'] + old(path[n..])
      else path[..] == old(path[..])
    ensures var t := CleanPath(old(path[..n])); |t| < path.Length && path[..|t|] == t && path[|t|] == '\0'
  {
    var length := n;
    if length >= 3 && path[0] == '"' && path[length - 1] == '"' {
      path[length - 1] := '\0';
      ghost var mid := path[..];
      var i := 1;
      while i <= length
        invariant 1 <= i <= length + 1
        invariant forall k :: 0 <= k < i - 1 ==> path[k] == mid[k + 1]
        invariant forall k :: i - 1 <= k < path.Length ==> path[k] == mid[k]
      {
        path[i - 1] := path[i];
        i := i + 1;
      }
      assert path[..] == old(path[1..n - 1]) + ['\0', '\0'] + old(path[n..]);
    }
  }

  /** Splitting on ';' ---------------------------------------------------- */

  /** Index of the first ';' in s, or |s| when there is none. */
  function FieldEnd(s: string): (k: nat)
    ensures k <= |s|
    ensures forall i :: 0 <= i < k ==> s[i] != ';'
    ensures k < |s| ==> s[k] == ';'
  {
    if s == [] || s[0] == ';' then 0 else 1 + FieldEnd(s[1..])
  }

  /**
   * The successive results of `strtok(value, ";")` then `strtok(NULL, ";")`:
   * the maximal runs of characters other than ';', so empty fields vanish.
   */
  function Tokens(s: string): (ts: seq<string>)
    ensures forall i :: 0 <= i < |ts| ==> ts[i] != [] && ';' !in ts[i]
    decreases |s|
  {
    if s == [] then []
    else if s[0] == ';' then Tokens(s[1..])
    else
      var k := FieldEnd(s);
      [s[..k]] + Tokens(s[k..])
  }

  /** Fields written out with ';' between them. */
  function JoinFields(fields: seq<string>): string
  {
    if |fields| == 0 then []
    else if |fields| == 1 then fields[0]
    else fields[0] + ";" + JoinFields(fields[1..])
  }

  lemma TokensOfField(f: string, rest: string)
    requires f != [] && ';' !in f
    ensures Tokens(f + rest) == [f] + Tokens(rest) || (rest != [] && rest[0] != ';')
    ensures rest == [] || rest[0] == ';' ==> Tokens(f + rest) == [f] + Tokens(rest)
  {
    var s := f + rest;
    if rest == [] || rest[0] == ';' {
      FieldEndOfField(f, rest);
      assert s[..|f|] == f && s[|f|..] == rest;
      if rest != [] {
        assert Tokens(rest) == Tokens(rest[1..]);
      }
    }
  }

  lemma {:induction false} FieldEndOfField(f: string, rest: string)
    requires ';' !in f
    requires rest == [] || rest[0] == ';'
    ensures FieldEnd(f + rest) == |f|
    decreases |f|
  {
    if f != [] {
      assert (f + rest)[1..] == f[1..] + rest;
      FieldEndOfField(f[1..], rest);
    } else {
      assert f + rest == rest;
    }
  }

  /**
   * strtok gives back the fields that were joined with ';', provided none is
   * empty and none holds a ';'.
   */
  lemma {:induction false} TokensOfJoinFields(fields: seq<string>)
    requires forall i :: 0 <= i < |fields| ==> fields[i] != [] && ';' !in fields[i]
    ensures Tokens(JoinFields(fields)) == fields
    decreases |fields|
  {
    if |fields| == 1 {
      TokensOfField(fields[0], []);
      assert fields[0] + [] == fields[0];
    } else if |fields| > 1 {
      var rest := ";" + JoinFields(fields[1..]);
      assert JoinFields(fields) == fields[0] + rest;
      TokensOfField(fields[0], rest);
      assert Tokens(rest) == Tokens(JoinFields(fields[1..])) by { assert rest[1..] == JoinFields(fields[1..]); }
      TokensOfJoinFields(fields[1..]);
    }
  }

  /** Leading, doubled and trailing ';' produce no empty fields. */
  lemma TokensSkipEmptyFields(s: string)
    ensures Tokens(";" + s) == Tokens(s)
    ensures Tokens(s) == [] <==> forall i :: 0 <= i < |s| ==> s[i] == ';'
  {
    assert (";" + s)[1..] == s;
    TokensEmpty(s);
  }

  lemma {:induction false} TokensEmpty(s: string)
    ensures Tokens(s) == [] <==> forall i :: 0 <= i < |s| ==> s[i] == ';'
    decreases |s|
  {
    if s != [] && s[0] == ';' {
      TokensEmpty(s[1..]);
    }
  }

  /** join_paths ---------------------------------------------------------- */

  predicate IsSeparator(c: char) { c == '/' || c == '\\' }

  predicate EndsInSeparator(t: string) { t != [] && IsSeparator(t[|t| - 1]) }

  /** Segment i as join_paths copies it: every segment but the first loses one leading separator. */
  function Segment(paths: seq<string>, i: nat): string
    requires i < |paths|
  {
    var arg := paths[i];
    if i != 0 && arg != [] && IsSeparator(arg[0]) then arg[1..] else arg
  }

  /**
   * The untruncated text join_paths has built after its first k segments: each
   * segment, followed by '/' unless it is the last one or the text already
   * ends in a separator.
   */
  function Partial(paths: seq<string>, k: nat): string
    requires k <= |paths|
  {
    if k == 0 then []
    else
      var t := Partial(paths, k - 1) + Segment(paths, k - 1);
      if k - 1 != |paths| - 1 && !EndsInSeparator(t) then t + "/" else t
  }

  /** All segments joined, before the buffer limit is applied. */
  function Joined(paths: seq<string>): string {
    Partial(paths, |paths|)
  }

  /** The first n characters of s (all of s when it is shorter). */
  function Truncate(s: string, n: int): (r: string)
    ensures |r| <= |s| && r == s[..|r|]
    ensures |r| == if n < 0 then 0 else if |s| <= n then |s| else n
  {
    if n < 0 then [] else if |s| <= n then s else s[..n]
  }

  /** `a` is the first |a| characters of `b`. */
  predicate IsPrefix(a: string, b: string) {
    a <= b
  }

  lemma {:induction false} PartialGrows(paths: seq<string>, i: nat, j: nat)
    requires i <= j <= |paths|
    ensures IsPrefix(Partial(paths, i), Partial(paths, j))
    decreases j - i
  {
    if i < j {
      PartialGrows(paths, i, j - 1);
      PrefixStep(paths, Partial(paths, i), j - 1);
    }
  }

  /** A prefix of the text after k segments is one of the text after k + 1. */
  lemma PrefixStep(paths: seq<string>, a: string, k: nat)
    requires k < |paths| && IsPrefix(a, Partial(paths, k))
    ensures IsPrefix(a, Partial(paths, k + 1))
  {
    PartialExtends(paths, k);
    PrefixOfPrefix(a, Partial(paths, k), Partial(paths, k + 1));
  }

  lemma PrefixOfPrefix(a: string, b: string, c: string)
    requires IsPrefix(a, b) && IsPrefix(b, c)
    ensures IsPrefix(a, c)
  {
  }

  /** One more segment only extends the text. */
  lemma PartialExtends(paths: seq<string>, k: nat)
    requires k < |paths|
    ensures IsPrefix(Partial(paths, k), Partial(paths, k + 1))
  {
    var p := Partial(paths, k);
    var t := p + Segment(paths, k);
    assert p <= t && t <= t + "/";
  }

  /** One pass of the join_paths loop, on the untruncated text: what segment i adds. */
  lemma SegmentStep(paths: seq<string>, i: nat, m: nat)
    requires i < |paths|
    ensures var t := Partial(paths, i) + Segment(paths, i);
      && Partial(paths, i + 1) == (if i != |paths| - 1 && !EndsInSeparator(t) then t + "/" else t)
      && (|t| >= m ==> |Joined(paths)| >= m && t[..m] == Joined(paths)[..m])
      && (|Partial(paths, i + 1)| >= m ==> |Joined(paths)| >= m && Partial(paths, i + 1)[..m] == Joined(paths)[..m])
  {
    var t := Partial(paths, i) + Segment(paths, i);
    var p, j := Partial(paths, i + 1), Joined(paths);
    assert IsPrefix(t, p);
    PartialGrows(paths, i + 1, |paths|);
    PrefixOfPrefix(t, p, j);
    if |t| >= m {
      TakeOfPrefix(t, j, m);
    }
    if |p| >= m {
      TakeOfPrefix(p, j, m);
    }
  }

  lemma TakeOfPrefix(a: string, c: string, m: nat)
    requires IsPrefix(a, c) && m <= |a|
    ensures a[..m] == c[..m]
  {
  }

  /** Cutting an appended text to the room left is cutting the whole text to the room in all. */
  lemma TruncateAfter(buffer: string, seg: string, bytes: nat)
    ensures buffer + Truncate(seg, bytes) == Truncate(buffer + seg, |buffer| + bytes)
  {
    if |seg| > bytes {
      assert (buffer + seg)[..|buffer| + bytes] == buffer + seg[..bytes];
    }
  }

  /**
   * The copy step of the join_paths loop: strncpy for the first segment,
   * strncat otherwise, each limited to the bytes left; `bytes` goes down by
   * the full length of what was meant to be copied, so it goes negative when
   * the segment did not fit.
   */
  method CopySegment(buffer: string, arg: string, first: bool, bytes: int) returns (out: string, left: int)
    requires bytes > 0
    ensures var seg := if !first && arg != [] && IsSeparator(arg[0]) then arg[1..] else arg;
      out == (if first then [] else buffer) + Truncate(seg, bytes) && left == bytes - |seg|
    ensures !first ==> IsPrefix(buffer, out)
    ensures left >= 0 ==> |out| + left == (if first then 0 else |buffer|) + bytes
    ensures left < 0 ==> |out| == (if first then 0 else |buffer|) + bytes
  {
    var length := |arg|;
    if first {
      out := Truncate(arg, bytes);
      left := bytes - length;
    } else if arg != [] && IsSeparator(arg[0]) {
      // Don't copy the leading separator of a later segment
      out := buffer + Truncate(arg[1..], bytes);
      left := bytes - (length - 1);
    } else {
      out := buffer + Truncate(arg, bytes);
      left := bytes - length;
    }
  }

  /**
   * What the join_paths loop keeps true before segment i: while room is left
   * the buffer holds exactly the text of the first i segments, and once the
   * room has run out it holds the first m characters of the whole join.
   */
  ghost predicate JoinInvariant(paths: seq<string>, m: nat, i: nat, buffer: string, bytes: int) {
    && i <= |paths|
    && (bytes > 0 ==> buffer == Partial(paths, i) && |buffer| + bytes == m)
    && (bytes <= 0 ==> |Joined(paths)| >= m && buffer == Joined(paths)[..m])
    && (0 < i < |paths| ==> buffer != [])
  }

  /** After the copy step the buffer is the text so far plus segment i, cut to the room in all. */
  lemma CopyStep(paths: seq<string>, m: nat, i: nat, buffer: string, bytes: int, out: string, left: int)
    requires JoinInvariant(paths, m, i, buffer, bytes) && i < |paths| && bytes > 0
    requires |paths| <= 1 || paths[0] != []
    requires out == (if i == 0 then [] else buffer) + Truncate(Segment(paths, i), bytes)
    requires left == bytes - |Segment(paths, i)|
    ensures var t := Partial(paths, i) + Segment(paths, i);
      out == Truncate(t, m) && left == m - |t|
    ensures i != |paths| - 1 ==> out != []
    ensures left <= 0 ==> |Joined(paths)| >= m && out == Joined(paths)[..m]
  {
    var t := Partial(paths, i) + Segment(paths, i);
    SegmentStep(paths, i, m);
    TruncateAfter(buffer, Segment(paths, i), bytes);
    if i == 0 {
      assert buffer == [];
      assert out == buffer + Truncate(Segment(paths, i), bytes);
    }
  }

  /** The separator step completes one pass of the loop. */
  lemma SeparatorStep(paths: seq<string>, m: nat, i: nat, out: string, left: int, final: string, finalBytes: int)
    requires i < |paths|
    requires var t := Partial(paths, i) + Segment(paths, i); out == Truncate(t, m) && left == m - |t|
    requires i != |paths| - 1 ==> out != []
    requires left <= 0 ==> |Joined(paths)| >= m && out == Joined(paths)[..m]
    requires if i != |paths| - 1 && left > 0 && !IsSeparator(out[|out| - 1])
             then final == out + "/" && finalBytes == left - 1
             else final == out && finalBytes == left
    ensures JoinInvariant(paths, m, i + 1, final, finalBytes)
  {
    SegmentStep(paths, i, m);
    var t := Partial(paths, i) + Segment(paths, i);
    if left > 0 {
      assert out == t;
      if finalBytes == 0 {
        assert final == Partial(paths, i + 1)[..m];
      }
    }
  }

  /**
   * join_paths(buffer, n, paths...): the result is the joined text cut to the
   * MAX_PATH_BYTES - 1 characters the buffer holds. The first segment must not
   * be empty when another follows: the separator check would then read the
   * byte before the buffer.
   */
  method JoinPaths(paths: seq<string>, maxPathBytes: nat) returns (buffer: string)
    requires maxPathBytes >= 1
    requires |paths| <= 1 || paths[0] != []
    ensures buffer == Truncate(Joined(paths), maxPathBytes - 1)
    ensures |buffer| <= maxPathBytes - 1
  {
    ghost var m := maxPathBytes - 1;
    buffer := [];
    var bytes: int := maxPathBytes - 1;
    var i := 0;
    while i < |paths| && bytes > 0
      invariant JoinInvariant(paths, m, i, buffer, bytes)
    {
      var out, left := CopySegment(buffer, paths[i], i == 0, bytes);
      CopyStep(paths, m, i, buffer, bytes, out, left);
      ghost var before, beforeBytes := out, left;
      buffer, bytes := out, left;

      // Add a separator unless this is the last segment or one is already there
      if i != |paths| - 1 && bytes > 0 && !IsSeparator(buffer[|buffer| - 1]) {
        buffer := buffer + "/";
        bytes := bytes - 1;
      }
      SeparatorStep(paths, m, i, before, beforeBytes, buffer, bytes);
      i := i + 1;
    }
  }

  /** Two segments: the second loses one leading separator, and '/' goes between unless the first ends in one. */
  lemma JoinedTwo(a: string, b: string)
    ensures Joined([a, b]) == a + (if EndsInSeparator(a) then "" else "/") + Segment([a, b], 1)
  {
    var paths := [a, b];
    assert Partial(paths, 1) == if EndsInSeparator(a) then a else a + "/" by {
      assert Partial(paths, 0) + Segment(paths, 0) == a;
    }
  }

  /** Nothing is written after the last segment: the joined text ends with it. */
  lemma JoinedEndsWithLastSegment(paths: seq<string>)
    requires |paths| >= 1
    ensures var j := Joined(paths); var last := Segment(paths, |paths| - 1);
      |last| <= |j| && j[|j| - |last|..] == last
  {
  }
}
