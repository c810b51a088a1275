/**
 * utf8_length and utf8_truncate. Both classify bytes by the leading-bit
 * patterns of section 3 of RFC 3629: 0xxxxxxx is a one-byte character,
 * 110xxxxx, 1110xxxx and 11110xxx start two-, three- and four-byte sequences,
 * and 10xxxxxx is a continuation byte.
 */
module Utf8 {

  predicate IsAscii(b: bv8) { (b & 0x80) == 0 }

  predicate IsContinuation(b: bv8) { (b & 0xC0) == 0x80 }

  /** The length a lead byte announces; 0 for a continuation byte or 0xF8..0xFF. */
  function SequenceLength(b: bv8): (k: nat)
    ensures k <= 4
  {
    if (b & 0x80) == 0 then 1
    else if (b & 0xE0) == 0xC0 then 2
    else if (b & 0xF0) == 0xE0 then 3
    else if (b & 0xF8) == 0xF0 then 4
    else 0
  }

  /**
   * The contents of a NUL-terminated string made of whole sequences: each
   * lead byte is followed by the continuation bytes it announces, and no byte
   * is the terminator.
   */
  predicate WellFormed(s: seq<bv8>)
    decreases |s|
  {
    s == [] ||
    var k := SequenceLength(s[0]);
    && s[0] != 0
    && 1 <= k <= |s|
    && Continued(s, k)
    && WellFormed(s[k..])
  }

  /** A lead byte is not a continuation byte, and only ASCII announces one byte. */
  lemma SequenceLengthClasses(b: bv8)
    ensures SequenceLength(b) == 0 <==> IsContinuation(b) || (b & 0xF8) == 0xF8
    ensures SequenceLength(b) == 1 <==> IsAscii(b)
  {
  }

  /** Bytes 1 to k - 1 of s (at most three of them) are continuation bytes. */
  predicate Continued(s: seq<bv8>, k: nat)
    requires k <= 4 && k <= |s|
  {
    && (k < 2 || IsContinuation(s[1]))
    && (k < 3 || IsContinuation(s[2]))
    && (k < 4 || IsContinuation(s[3]))
  }

  lemma ContinuedMeans(s: seq<bv8>, k: nat)
    requires k <= 4 && k <= |s|
    ensures Continued(s, k) <==> forall j :: 1 <= j < k ==> IsContinuation(s[j])
  {
  }

  /**
   * utf8_length: from the start, step over one whole sequence per character,
   * as long as its lead byte announces (SequenceLength has the four branches
   * of the C loop). On text that is not well formed the C loop can stop
   * advancing or run past the terminator, so well-formedness is required.
   */
  function Utf8Length(s: seq<bv8>): (n: nat)
    requires WellFormed(s)
    ensures n <= |s|
    ensures n == 0 <==> s == []
    decreases |s|
  {
    if s == [] then 0 else 1 + Utf8Length(s[SequenceLength(s[0])..])
  }

  /** On ASCII text every byte is a character: utf8_length is strlen. */
  lemma {:induction false} AsciiLength(s: seq<bv8>)
    requires forall j :: 0 <= j < |s| ==> s[j] != 0 && IsAscii(s[j])
    ensures WellFormed(s) && Utf8Length(s) == |s|
    decreases |s|
  {
    if s != [] {
      AsciiLength(s[1..]);
      AsciiFirst(s[0], s[1..]);
      assert [s[0]] + s[1..] == s;
    }
  }

  /** The number of bytes that start a character (are not continuation bytes). */
  function CountLeads(s: seq<bv8>): nat
    decreases |s|
  {
    if s == [] then 0 else (if IsContinuation(s[0]) then 0 else 1) + CountLeads(s[1..])
  }

  lemma {:induction false} CountLeadsAppend(a: seq<bv8>, b: seq<bv8>)
    ensures CountLeads(a + b) == CountLeads(a) + CountLeads(b)
    decreases |a|
  {
    if a == [] {
      assert a + b == b;
    } else {
      assert (a + b)[1..] == a[1..] + b;
      CountLeadsAppend(a[1..], b);
    }
  }

  lemma {:induction false} CountLeadsOfContinuations(s: seq<bv8>)
    requires forall j :: 0 <= j < |s| ==> IsContinuation(s[j])
    ensures CountLeads(s) == 0
    decreases |s|
  {
    if s != [] {
      CountLeadsOfContinuations(s[1..]);
    }
  }

  /** One character contributes exactly one lead byte. */
  lemma CountLeadsOfCharacter(s: seq<bv8>, k: nat)
    requires 1 <= k <= |s| && SequenceLength(s[0]) == k
    requires forall j :: 1 <= j < k ==> IsContinuation(s[j])
    ensures CountLeads(s[..k]) == 1
  {
    var c := s[..k];
    assert c[1..] == s[1..k];
    CountLeadsOfContinuations(c[1..]);
  }

  /** utf8_length counts the bytes that start a character. */
  lemma {:induction false} Utf8LengthCountsLeads(s: seq<bv8>)
    requires WellFormed(s)
    ensures Utf8Length(s) == CountLeads(s)
    decreases |s|
  {
    if s != [] {
      var k := SequenceLength(s[0]);
      var c, rest := s[..k], s[k..];
      ContinuedMeans(s, k);
      CountLeadsOfCharacter(s, k);
      Utf8LengthCountsLeads(rest);
      assert s == c + rest;
      CountLeadsAppend(c, rest);
      assert Utf8Length(s) == 1 + Utf8Length(rest);
    }
  }

  /** A whole character followed by well-formed text is well formed. */
  lemma PrependCharacter(c: seq<bv8>, rest: seq<bv8>)
    requires IsCharacter(c) && WellFormed(rest)
    ensures WellFormed(c + rest)
  {
    var s := c + rest;
    assert s[|c|..] == rest;
    assert s[0] == c[0];
    assert Continued(s, |c|) by { assert forall j :: 0 <= j < |c| ==> s[j] == c[j]; }
  }

  /** The first character of well-formed text is one whole sequence. */
  lemma FirstCharacter(a: seq<bv8>) returns (k: nat)
    requires WellFormed(a) && a != []
    ensures k == SequenceLength(a[0]) && 1 <= k <= |a|
    ensures IsCharacter(a[..k]) && WellFormed(a[k..]) && a == a[..k] + a[k..]
  {
    k := SequenceLength(a[0]);
    ContinuedMeans(a, k);
    ContinuedMeans(a[..k], k);
  }

  /** Well-formed pieces join into well-formed text. */
  lemma {:induction false} AppendWellFormed(a: seq<bv8>, b: seq<bv8>)
    requires WellFormed(a) && WellFormed(b)
    ensures WellFormed(a + b)
    decreases |a|
  {
    if a == [] {
      assert a + b == b;
    } else {
      var k := FirstCharacter(a);
      var c, r := a[..k], a[k..] + b;
      assert a + b == c + r;
      AppendWellFormed(a[k..], b);
      PrependCharacter(c, r);
    }
  }

  /** ... and their character counts add. */
  lemma AppendLength(a: seq<bv8>, b: seq<bv8>)
    requires WellFormed(a) && WellFormed(b)
    ensures WellFormed(a + b)
    ensures Utf8Length(a + b) == Utf8Length(a) + Utf8Length(b)
  {
    AppendWellFormed(a, b);
    Utf8LengthCountsLeads(a);
    Utf8LengthCountsLeads(b);
    Utf8LengthCountsLeads(a + b);
    CountLeadsAppend(a, b);
  }

  // Walking back from the end

  /** The start of the last character: the last byte that is not a continuation byte (or the first byte). */
  function LastStart(t: seq<bv8>): (p: nat)
    requires t != []
    ensures p < |t|
    decreases |t|
  {
    if |t| == 1 || !IsContinuation(t[|t| - 1]) then |t| - 1 else LastStart(t[..|t| - 1])
  }

  lemma {:induction false} LastStartSkipsContinuations(t: seq<bv8>, p: nat)
    requires p < |t|
    requires p == 0 || !IsContinuation(t[p])
    requires forall j :: p < j < |t| ==> IsContinuation(t[j])
    ensures LastStart(t) == p
    decreases |t|
  {
    if |t| - 1 != p {
      LastStartSkipsContinuations(t[..|t| - 1], p);
    }
  }

  /** One whole character: a lead byte and the continuation bytes it announces. */
  predicate IsCharacter(c: seq<bv8>) {
    c != [] && c[0] != 0 && SequenceLength(c[0]) == |c| && Continued(c, |c|)
  }

  lemma CharacterBytes(c: seq<bv8>)
    requires IsCharacter(c)
    ensures !IsContinuation(c[0])
    ensures forall j :: 1 <= j < |c| ==> IsContinuation(c[j])
    ensures |c| == 1 <==> IsAscii(c[0])
  {
    SequenceLengthClasses(c[0]);
    ContinuedMeans(c, |c|);
  }

  /** A character after any bytes keeps its place as the last start. */
  lemma {:induction false} LastStartShift(a: seq<bv8>, b: seq<bv8>)
    requires b != [] && !IsContinuation(b[LastStart(b)])
    ensures LastStart(a + b) == |a| + LastStart(b)
    decreases |b|
  {
    var t := a + b;
    assert t[|t| - 1] == b[|b| - 1];
    if |b| == 1 || !IsContinuation(b[|b| - 1]) {
    } else {
      var b' := b[..|b| - 1];
      assert t[..|t| - 1] == a + b';
      assert b'[LastStart(b')] == b[LastStart(b)];
      LastStartShift(a, b');
    }
  }

  /** In well-formed text the last character starts at LastStart, after well-formed text. */
  lemma {:induction false} LastCharacterShape(t: seq<bv8>)
    requires WellFormed(t) && t != []
    ensures WellFormed(t[..LastStart(t)]) && IsCharacter(t[LastStart(t)..])
    decreases |t|
  {
    var k := FirstCharacter(t);
    var c, rest := t[..k], t[k..];
    if rest == [] {
      LoneCharacter(t);
    } else {
      LastCharacterShape(rest);
      ShapeAfterCharacter(t, c, rest);
    }
  }

  /** A single character is its own last character. */
  lemma LoneCharacter(c: seq<bv8>)
    requires IsCharacter(c)
    ensures WellFormed(c[..LastStart(c)]) && IsCharacter(c[LastStart(c)..])
  {
    CharacterBytes(c);
    LastStartSkipsContinuations(c, 0);
    assert c[..0] == [] && c[0..] == c;
  }

  /** The inductive step of LastCharacterShape: one more character in front. */
  lemma ShapeAfterCharacter(t: seq<bv8>, c: seq<bv8>, rest: seq<bv8>)
    requires t == c + rest && IsCharacter(c) && rest != []
    requires WellFormed(rest[..LastStart(rest)]) && IsCharacter(rest[LastStart(rest)..])
    ensures WellFormed(t[..LastStart(t)]) && IsCharacter(t[LastStart(t)..])
  {
    var q := LastStart(rest);
    var front, last := rest[..q], rest[q..];
    assert last[0] == rest[q];
    CharacterBytes(last);
    LastStartShift(c, rest);
    PrependCharacter(c, front);
    var p := |c| + q;
    assert t[..p] == c + front;
    assert t[p..] == last;
  }

  /** A whole character on its own is well-formed text of length one. */
  lemma CharacterLength(c: seq<bv8>)
    requires IsCharacter(c)
    ensures WellFormed(c) && Utf8Length(c) == 1
  {
    assert c[|c|..] == [];
  }

  /** Dropping the last character of well-formed text drops one from its length. */
  lemma DropLast(t: seq<bv8>)
    requires WellFormed(t) && t != []
    ensures WellFormed(t[..LastStart(t)]) && Utf8Length(t[..LastStart(t)]) + 1 == Utf8Length(t)
  {
    LastCharacterShape(t);
    var p := LastStart(t);
    var a, c := t[..p], t[p..];
    assert a + c == t;
    CharacterLength(c);
    AppendLength(a, c);
  }

  /** The bytes of a character that ends the text, read in place. */
  lemma CharacterAtEnd(t: seq<bv8>, p: nat)
    requires p < |t| && IsCharacter(t[p..])
    ensures !IsContinuation(t[p])
    ensures forall j :: p < j < |t| ==> IsContinuation(t[j])
    ensures p == |t| - 1 <==> IsAscii(t[p])
  {
    var c := t[p..];
    CharacterBytes(c);
    assert forall j :: p < j < |t| ==> t[j] == c[j - p];
  }

  /** The last character of well-formed text: a lead byte, then continuation bytes only. */
  lemma LastCharacter(t: seq<bv8>)
    requires WellFormed(t) && t != []
    ensures var p := LastStart(t);
      && !IsContinuation(t[p])
      && (forall j :: p < j < |t| ==> IsContinuation(t[j]))
      && (p == |t| - 1 <==> IsAscii(t[p]))
  {
    LastCharacterShape(t);
    CharacterAtEnd(t, LastStart(t));
  }

  /**
   * The byte offset reached after stepping back over k whole characters from
   * the end of s: the cut point of utf8_truncate.
   */
  function Cut(s: seq<bv8>, k: nat): (c: nat)
    ensures c <= |s|
    decreases k
  {
    if k == 0 then |s|
    else
      var p := Cut(s, k - 1);
      if p == 0 then 0 else LastStart(s[..p])
  }

  /** Before the cut after k characters lies well-formed text of length - k characters. */
  lemma {:induction false} CutFacts(s: seq<bv8>, k: nat)
    requires WellFormed(s) && k <= Utf8Length(s)
    ensures WellFormed(s[..Cut(s, k)]) && Utf8Length(s[..Cut(s, k)]) == Utf8Length(s) - k
    decreases k
  {
    if k == 0 {
      assert s[..|s|] == s;
    } else {
      CutFacts(s, k - 1);
      var t := s[..Cut(s, k - 1)];
      DropLast(t);
      assert t[..LastStart(t)] == s[..LastStart(t)];
    }
  }

  /** The magnitude of x. */
  function Abs(x: int): nat {
    if x < 0 then -x else x
  }

  /** Euclidean division of naturals: the quotient is the largest q with q * d <= m. */
  lemma DivBounds(m: nat, d: nat)
    requires d > 0
    ensures 0 <= m / d
    ensures (m / d) * d <= m < (m / d + 1) * d
  {
    var q := m / d;
    assert m == q * d + m % d;
    assert (q + 1) * d == q * d + d;
  }

  /**
   * C's `/` on int: the quotient truncated toward zero. Its magnitude is the
   * largest q with q * |b| <= |a|, and it is negative only when exactly one
   * operand is.
   */
  function CDiv(a: int, b: int): (r: int)
    requires b != 0
    ensures Abs(r) * Abs(b) <= Abs(a) < (Abs(r) + 1) * Abs(b)
    ensures r < 0 ==> (a < 0) != (b < 0)
    ensures r > 0 ==> (a < 0) == (b < 0)
  {
    var q := Abs(a) / Abs(b);
    DivBounds(Abs(a), Abs(b));
    var r := if (a < 0) != (b < 0) then -q else q;
    assert Abs(r) == q;
    r
  }

  /**
   * The number of characters utf8_truncate steps back over: (length - the
   * characters that fit) + 3 for the ellipsis, where the characters that fit
   * are max_width divided by the average width width / length.
   */
  function Spaces(length: int, width: int, maxWidth: int): int
    requires length != 0 && CDiv(width, length) != 0
  {
    length - CDiv(maxWidth, CDiv(width, length)) + 3
  }

  /** The do-while loop steps back at least once. */
  function Steps(spaces: int): nat {
    if spaces < 1 then 1 else spaces
  }

  const DOT: bv8 := 0x2E

  /**
   * One pass of the walk back, stated on the whole string: from the cut
   * after c characters, the previous cut is the nearest earlier byte that is
   * not a continuation byte, and it is the byte just before exactly when
   * that byte is ASCII.
   */
  lemma StepBack(s: seq<bv8>, c: nat, p: nat) returns (q: nat)
    requires WellFormed(s) && c < Utf8Length(s) && p == Cut(s, c)
    ensures q == Cut(s, c + 1)
    ensures 1 <= p <= |s| && q < p
    ensures !IsContinuation(s[q])
    ensures forall j :: q < j < p ==> IsContinuation(s[j])
    ensures q == p - 1 <==> IsAscii(s[p - 1])
  {
    CutStep(s, c);
    CutFacts(s, c);
    LastInPrefix(s, p);
    q := LastStart(s[..p]);
  }

  /** LastCharacter, read on the whole string rather than on its prefix. */
  lemma LastInPrefix(s: seq<bv8>, p: nat)
    requires 1 <= p <= |s| && WellFormed(s[..p])
    ensures var q := LastStart(s[..p]);
      && !IsContinuation(s[q])
      && (forall j :: q < j < p ==> IsContinuation(s[j]))
      && (q == p - 1 <==> IsAscii(s[p - 1]))
  {
    var t := s[..p];
    LastCharacter(t);
    assert forall j :: 0 <= j < p ==> t[j] == s[j];
  }

  lemma CutStep(s: seq<bv8>, c: nat)
    requires WellFormed(s) && c < Utf8Length(s)
    ensures Cut(s, c) != 0 && Cut(s, c + 1) == LastStart(s[..Cut(s, c)])
  {
    CutFacts(s, c);
  }

  /**
   * One pass of the walk back of utf8_truncate: step back one byte; if it is
   * not ASCII, keep stepping back over continuation bytes onto the lead byte
   * (but never before the first byte). From the cut after c characters this
   * reaches the cut after c + 1.
   */
  method StepOver(buf: array<bv8>, n: nat, c: nat, from: nat) returns (ptr: nat)
    requires n <= buf.Length && WellFormed(buf[..n]) && c < Utf8Length(buf[..n])
    requires from == Cut(buf[..n], c)
    ensures ptr == Cut(buf[..n], c + 1)
  {
    ghost var s := buf[..n];
    ghost var q := StepBack(s, c, from);
    assert buf[from - 1] == s[from - 1] && buf[q] == s[q];
    ptr := from - 1;
    if (buf[ptr] & 0x80) != 0 {
      ptr := ptr - 1;
      while ptr > 0 && (buf[ptr] & 0xC0) == 0x80
        invariant q <= ptr < from - 1
        decreases ptr
      {
        ptr := ptr - 1;
      }
      assert buf[ptr] == s[ptr];
    }
    assert ptr == q;
  }

  /**
   * The walk back of utf8_truncate: a do-while loop that steps back over one
   * character per pass until it has stepped over `spaces` characters.
   */
  method WalkBack(buf: array<bv8>, n: nat, spaces: int) returns (ptr: nat)
    requires n <= buf.Length && WellFormed(buf[..n])
    requires spaces <= Utf8Length(buf[..n]) && Utf8Length(buf[..n]) != 0
    ensures ptr == Cut(buf[..n], Steps(spaces))
  {
    ghost var s := buf[..n];
    ptr := n;
    var chars := 0;
    assert s[..n] == s;
    while chars == 0 || chars < spaces
      invariant chars <= Steps(spaces)
      invariant ptr == Cut(s, chars)
      decreases Steps(spaces) - chars
    {
      ptr := StepOver(buf, n, chars, ptr);
      chars := chars + 1;
    }
    assert chars == Steps(spaces);
  }

  /**
   * utf8_truncate(string, width, max_width) on the buffer, with n its strlen.
   * The average width divides by the character count and then divides
   * max_width, so neither may be zero; the walk back must not pass the start
   * of the string.
   */
  method Utf8Truncate(buf: array<bv8>, n: nat, width: int, maxWidth: int)
    requires n < buf.Length && buf[n] == 0 && WellFormed(buf[..n])
    requires Utf8Length(buf[..n]) != 0 && CDiv(width, Utf8Length(buf[..n])) != 0
    requires Spaces(Utf8Length(buf[..n]), width, maxWidth) <= Utf8Length(buf[..n])
    modifies buf
    ensures var s := old(buf[..n]);
      var cut := Cut(s, Steps(Spaces(Utf8Length(s), width, maxWidth)));
      if n - cut > 2
      then buf[..] == old(buf[..cut]) + [DOT, DOT, DOT, 0] + old(buf[cut + 4..])
      else buf[..] == old(buf[..])
  {
    var stringLength := Utf8Length(buf[..n]);
    var avgWidth := CDiv(width, stringLength);
    var numChars := CDiv(maxWidth, avgWidth);
    var spaces := (stringLength - numChars) + 3;
    var ptr := WalkBack(buf, n, spaces);

    // Add "..." to inform the user of the truncation
    if n - ptr > 2 {
      ghost var before := buf[..];
      buf[ptr] := DOT;
      buf[ptr + 1] := DOT;
      buf[ptr + 2] := DOT;
      buf[ptr + 3] := 0;
      assert buf[..] == before[ptr := DOT][ptr + 1 := DOT][ptr + 2 := DOT][ptr + 3 := 0];
      WriteEllipsis(before, ptr);
    }
  }

  /** Four single-byte writes replace a four-byte window. */
  lemma WriteEllipsis(b: seq<bv8>, p: nat)
    requires p + 4 <= |b|
    ensures b[p := DOT][p + 1 := DOT][p + 2 := DOT][p + 3 := 0] == b[..p] + [DOT, DOT, DOT, 0] + b[p + 4..]
  {
  }

  /** An ASCII byte other than the terminator is one character. */
  lemma AsciiFirst(b: bv8, rest: seq<bv8>)
    requires IsAscii(b) && b != 0 && WellFormed(rest)
    ensures WellFormed([b] + rest) && Utf8Length([b] + rest) == 1 + Utf8Length(rest)
  {
    var s := [b] + rest;
    assert s[0] == b && s[1..] == rest;
  }

  /**
   * What a truncated string reads as: the characters before the cut, then
   * "...". It is well formed again and holds length - k + 3 characters, which
   * is the number that fit whenever at least one character had to go.
   */
  lemma TruncatedText(s: seq<bv8>, k: nat)
    requires WellFormed(s) && 1 <= k <= Utf8Length(s)
    ensures WellFormed(s[..Cut(s, k)] + [DOT, DOT, DOT])
    ensures Utf8Length(s[..Cut(s, k)] + [DOT, DOT, DOT]) == Utf8Length(s) - k + 3
  {
    var dots := [DOT, DOT, DOT];
    AsciiFirst(DOT, []);
    assert [DOT] + [] == [DOT];
    AsciiFirst(DOT, [DOT]);
    assert [DOT] + [DOT] == [DOT, DOT];
    AsciiFirst(DOT, [DOT, DOT]);
    assert [DOT] + [DOT, DOT] == dots;
    CutFacts(s, k);
    AppendLength(s[..Cut(s, k)], dots);
  }
}
