/** The string and byte-string builtins the pipeline relies on, written out with
    Python's semantics: `replace`, `split`, `join`, `endswith`, ASCII `lower`,
    code-point ordering and UTF-8 encoding. */
module Text {
  import opened Base

  predicate EndsWith<T(==)>(s: seq<T>, suffix: seq<T>)
  {
    |suffix| <= |s| && s[|s| - |suffix|..] == suffix
  }

  /** `sub in s` for strings and byte strings. */
  predicate Contains<T(==)>(s: seq<T>, sub: seq<T>)
  {
    exists i :: 0 <= i <= |s| && sub <= s[i..]
  }

  /** `s.replace(pat, rep)`: every leftmost non-overlapping occurrence of `pat`,
      scanned left to right; an empty `pat` inserts `rep` around every element. */
  function Replace<T(==)>(s: seq<T>, pat: seq<T>, rep: seq<T>): seq<T>
    decreases |s|
  {
    if |pat| == 0 then Interleave(s, rep)
    else if |s| == 0 then []
    else if pat <= s then rep + Replace(s[|pat|..], pat, rep)
    else [s[0]] + Replace(s[1..], pat, rep)
  }

  function Interleave<T>(s: seq<T>, rep: seq<T>): seq<T>
  {
    if |s| == 0 then rep else rep + [s[0]] + Interleave(s[1..], rep)
  }

  /** The number of replacements `Replace(s, pat, _)` performs (`s.count(pat)`). */
  function Occurrences<T(==)>(s: seq<T>, pat: seq<T>): nat
    decreases |s|
  {
    if |pat| == 0 then |s| + 1
    else if |s| == 0 then 0
    else if pat <= s then 1 + Occurrences(s[|pat|..], pat)
    else Occurrences(s[1..], pat)
  }

  lemma {:induction false} InterleaveLength<T>(s: seq<T>, rep: seq<T>)
    ensures |Interleave(s, rep)| == |s| + (|s| + 1) * |rep|
  {
    if |s| > 0 {
      InterleaveLength(s[1..], rep);
    }
  }

  /** Each replacement changes the length by `|rep| - |pat|` and nothing else does. */
  lemma {:induction false} ReplaceLength<T>(s: seq<T>, pat: seq<T>, rep: seq<T>)
    ensures |Replace(s, pat, rep)| == |s| + Occurrences(s, pat) * (|rep| - |pat|)
    decreases |s|
  {
    if |pat| == 0 {
      InterleaveLength(s, rep);
    } else if |s| == 0 {
    } else if pat <= s {
      ReplaceLength(s[|pat|..], pat, rep);
      var k := Occurrences(s[|pat|..], pat);
      var d := |rep| - |pat|;
      assert (1 + k) * d == d + k * d by {
        MulSucc(k, d);
      }
      calc {
        |Replace(s, pat, rep)|;
        |rep| + |Replace(s[|pat|..], pat, rep)|;
        |rep| + (|s| - |pat|) + k * d;
        |s| + (1 + k) * d;
      }
    } else {
      ReplaceLength(s[1..], pat, rep);
    }
  }

  lemma MulSucc(k: int, d: int)
    ensures (1 + k) * d == d + k * d
  {
  }

  /** A replacement by something of the same length never changes the length. */
  lemma SameLengthReplace<T>(s: seq<T>, pat: seq<T>, rep: seq<T>)
    requires |rep| == |pat|
    ensures |Replace(s, pat, rep)| == |s|
  {
    ReplaceLength(s, pat, rep);
  }

  /** Content without the pattern is returned unchanged. */
  lemma {:induction false} ReplaceAbsent<T>(s: seq<T>, pat: seq<T>, rep: seq<T>)
    requires |pat| > 0 && !Contains(s, pat)
    ensures Replace(s, pat, rep) == s
    decreases |s|
  {
    if |s| > 0 {
      assert !(pat <= s[0..]);
      assert s[0..] == s;
      forall i | 0 <= i <= |s[1..]|
        ensures !(pat <= s[1..][i..])
      {
        assert s[1..][i..] == s[i + 1..];
      }
      ReplaceAbsent(s[1..], pat, rep);
    }
  }

  /** Replacing a non-empty pattern by itself is the identity. */
  lemma {:induction false} ReplaceSelf<T>(s: seq<T>, pat: seq<T>)
    requires |pat| > 0
    ensures Replace(s, pat, pat) == s
    decreases |s|
  {
    if |s| == 0 {
    } else if pat <= s {
      ReplaceSelf(s[|pat|..], pat);
      assert s == pat + s[|pat|..];
    } else {
      ReplaceSelf(s[1..], pat);
      assert s == [s[0]] + s[1..];
    }
  }

  /** `sep.join(parts)`. */
  function Join(sep: string, parts: seq<string>): string
  {
    if |parts| == 0 then ""
    else if |parts| == 1 then parts[0]
    else parts[0] + sep + Join(sep, parts[1..])
  }

  lemma {:induction false} JoinSnoc(sep: string, parts: seq<string>, p: string)
    ensures Join(sep, parts + [p]) == if |parts| == 0 then p else Join(sep, parts) + sep + p
  {
    if |parts| > 1 {
      assert (parts + [p])[1..] == parts[1..] + [p];
      JoinSnoc(sep, parts[1..], p);
    } else if |parts| == 1 {
      assert (parts + [p])[1..] == [p];
    }
  }

  /** The index of the first occurrence of `c` in `s`. */
  function IndexOf(s: string, c: char): (r: Option<nat>)
    ensures r.None? <==> c !in s
    ensures r.Some? ==> r.value < |s| && s[r.value] == c && c !in s[..r.value]
  {
    if |s| == 0 then None
    else if s[0] == c then Some(0)
    else match IndexOf(s[1..], c)
      case None => None
      case Some(i) => assert s[1..][..i] == s[1..i + 1]; Some(i + 1)
  }

  /** `s.split(c)` with an explicit one-character separator. */
  function Split(s: string, c: char): (r: seq<string>)
    ensures |r| >= 1
    ensures forall i :: 0 <= i < |r| ==> c !in r[i]
    decreases |s|
  {
    match IndexOf(s, c)
    case None => [s]
    case Some(i) => [s[..i]] + Split(s[i + 1..], c)
  }

  /** Splitting on a separator and joining with it gives the string back. */
  lemma {:induction false} JoinSplit(s: string, c: char)
    ensures Join([c], Split(s, c)) == s
    decreases |s|
  {
    match IndexOf(s, c)
    case None =>
    case Some(i) =>
      var rest := Split(s[i + 1..], c);
      JoinSplit(s[i + 1..], c);
      assert Split(s, c) == [s[..i]] + rest;
      assert (Split(s, c))[1..] == rest;
      assert s == s[..i] + [c] + s[i + 1..];
  }

  /** `s.rstrip(c)`. */
  function RStrip(s: string, c: char): (r: string)
    ensures r <= s
    ensures |r| > 0 ==> r[|r| - 1] != c
    ensures forall i :: |r| <= i < |s| ==> s[i] == c
  {
    if |s| == 0 then s
    else if s[|s| - 1] == c then RStrip(s[..|s| - 1], c)
    else s
  }

  /** `s.lstrip(c)`. */
  function LStrip(s: string, c: char): (r: string)
    ensures |r| <= |s| && r == s[|s| - |r|..]
    ensures |r| > 0 ==> r[0] != c
    ensures forall i :: 0 <= i < |s| - |r| ==> s[i] == c
  {
    if |s| > 0 && s[0] == c then LStrip(s[1..], c) else s
  }

  function LowerChar(c: char): char
  {
    if 'A' <= c <= 'Z' then (c as int + 32) as char else c
  }

  /** `s.lower()` for the ASCII letters. */
  function Lower(s: string): (r: string)
    ensures |r| == |s|
    ensures forall i :: 0 <= i < |s| ==> r[i] == LowerChar(s[i])
  {
    seq(|s|, i requires 0 <= i < |s| => LowerChar(s[i]))
  }

  /** Python's string ordering: lexicographic by code point. */
  predicate StrLess(a: string, b: string)
  {
    if |a| == 0 then |b| > 0
    else if |b| == 0 then false
    else if a[0] != b[0] then a[0] < b[0]
    else StrLess(a[1..], b[1..])
  }

  predicate StrictlySorted(xs: seq<string>)
  {
    forall i, j :: 0 <= i < j < |xs| ==> StrLess(xs[i], xs[j])
  }

  lemma {:induction false} StrLessTransitive(a: string, b: string, c: string)
    requires StrLess(a, b) && StrLess(b, c)
    ensures StrLess(a, c)
  {
    if |a| > 0 && a[0] == b[0] && b[0] == c[0] {
      StrLessTransitive(a[1..], b[1..], c[1..]);
    }
  }

  /** Neighbouring order is enough for a strictly sorted list. */
  lemma {:induction false} SortedFromNeighbours(xs: seq<string>)
    requires forall i :: 0 <= i < |xs| - 1 ==> StrLess(xs[i], xs[i + 1])
    ensures StrictlySorted(xs)
    decreases |xs|
  {
    if |xs| > 1 {
      SortedFromNeighbours(xs[1..]);
      forall j | 1 < j < |xs|
        ensures StrLess(xs[0], xs[j])
      {
        assert xs[1..][0] == xs[1] && xs[1..][j - 1] == xs[j];
        if j > 1 {
          StrLessTransitive(xs[0], xs[1], xs[j]);
        }
      }
      forall i, j | 0 <= i < j < |xs|
        ensures StrLess(xs[i], xs[j])
      {
        if i > 0 {
          assert xs[1..][i - 1] == xs[i] && xs[1..][j - 1] == xs[j];
        }
      }
    }
  }

  /** UTF-8 encoding of one Unicode scalar value. */
  function EncodeChar(c: char): (r: Bytes)
    ensures 1 <= |r| <= 4
    ensures |r| == 1 <==> c as int < 0x80
    ensures |r| == 1 ==> r[0] as int == c as int
  {
    var n := c as int;
    if n < 0x80 then [n as byte]
    else if n < 0x800 then [(0xC0 + n / 0x40) as byte, (0x80 + n % 0x40) as byte]
    else if n < 0x10000 then
      [(0xE0 + n / 0x1000) as byte, (0x80 + (n / 0x40) % 0x40) as byte, (0x80 + n % 0x40) as byte]
    else
      [(0xF0 + n / 0x40000) as byte, (0x80 + (n / 0x1000) % 0x40) as byte,
       (0x80 + (n / 0x40) % 0x40) as byte, (0x80 + n % 0x40) as byte]
  }

  /** `s.encode("utf-8")`. */
  function Utf8(s: string): Bytes
  {
    if |s| == 0 then [] else EncodeChar(s[0]) + Utf8(s[1..])
  }

  lemma {:induction false} Utf8Concat(a: string, b: string)
    ensures Utf8(a + b) == Utf8(a) + Utf8(b)
    decreases |a|
  {
    if |a| > 0 {
      assert (a + b)[0] == a[0] && (a + b)[1..] == a[1..] + b;
      Utf8Concat(a[1..], b);
    } else {
      assert a + b == b;
    }
  }

  /** A UTF-8 continuation byte, `10xxxxxx`. */
  predicate IsContinuation(b: byte)
  {
    0x80 <= b <= 0xBF
  }

  /** The second byte of a well-formed three-byte sequence: no overlong form after
      `E0` and no surrogate after `ED`. */
  predicate SecondOfThree(lead: byte, b: byte)
  {
    IsContinuation(b) && (lead == 0xE0 ==> 0xA0 <= b) && (lead == 0xED ==> b <= 0x9F)
  }

  /** The second byte of a well-formed four-byte sequence: no overlong form after `F0`
      and nothing above U+10FFFF after `F4`. */
  predicate SecondOfFour(lead: byte, b: byte)
  {
    IsContinuation(b) && (lead == 0xF0 ==> 0x90 <= b) && (lead == 0xF4 ==> b <= 0x8F)
  }

  /** The number of bytes `decode("utf-8", "surrogateescape")` reads for the character
      that starts `data`: a well-formed UTF-8 sequence is one character, and any other
      byte becomes one escaped character of its own. */
  function CharLength(data: Bytes): (n: nat)
    requires |data| > 0
    ensures 1 <= n <= 4 && n <= |data|
    ensures data[0] < 0x80 ==> n == 1
  {
    var b := data[0];
    if b < 0x80 then 1
    else if 0xC2 <= b <= 0xDF && |data| >= 2 && IsContinuation(data[1]) then 2
    else if 0xE0 <= b <= 0xEF && |data| >= 3 && SecondOfThree(b, data[1]) && IsContinuation(data[2]) then 3
    else if 0xF0 <= b <= 0xF4 && |data| >= 4 && SecondOfFour(b, data[1])
      && IsContinuation(data[2]) && IsContinuation(data[3]) then 4
    else 1
  }

  /** The number of characters the decoded text has. */
  function CharCount(data: Bytes): (n: nat)
    ensures n <= |data|
    ensures |data| > 0 ==> n > 0
    decreases |data|
  {
    if |data| == 0 then 0 else 1 + CharCount(data[CharLength(data)..])
  }

  /** The bytes of `data.decode("utf-8", "surrogateescape").replace("", new)`,
      encoded back: `ins` before every character and once at the end. */
  function InsertAtChars(data: Bytes, ins: Bytes): (r: Bytes)
    ensures |r| == |data| + (CharCount(data) + 1) * |ins|
    decreases |data|
  {
    if |data| == 0 then ins
    else
      var n := CharLength(data);
      ins + data[..n] + InsertAtChars(data[n..], ins)
  }

  /** Decoding reads the encoding of a character back as exactly one character,
      whatever follows it. */
  lemma CharLengthOfEncoded(c: char, rest: Bytes)
    ensures CharLength(EncodeChar(c) + rest) == |EncodeChar(c)|
  {
    var n := c as int;
    var e := EncodeChar(c);
    var data := e + rest;
    assert data[..|e|] == e;
    if n < 0x80 {
    } else if n < 0x800 {
      assert 2 <= n / 0x40 < 0x20;
    } else if n < 0x10000 {
      assert n < 0xD800 || 0xE000 <= n;
      var lead := n / 0x1000;
      var second := (n / 0x40) % 0x40;
      assert lead < 0x10;
      assert lead == 0 ==> 0x20 <= second;
      assert lead == 0xD ==> second < 0x20;
    } else {
      assert n < 0x110000;
      var lead := n / 0x40000;
      var second := (n / 0x1000) % 0x40;
      assert lead <= 4;
      assert lead == 0 ==> 0x10 <= second;
      assert lead == 4 ==> second < 0x10;
    }
  }

  /** The encoding of a string decodes to as many characters as it has. */
  lemma {:induction false} CharCountOfUtf8(s: string)
    ensures CharCount(Utf8(s)) == |s|
    decreases |s|
  {
    if |s| > 0 {
      CharLengthOfEncoded(s[0], Utf8(s[1..]));
      var data := Utf8(s);
      assert data[|EncodeChar(s[0])|..] == Utf8(s[1..]);
      CharCountOfUtf8(s[1..]);
    }
  }

  /** On text that came from a string, inserting at character boundaries is Python's
      `s.replace("", new)` followed by encoding. */
  lemma InsertAtCharsOfUtf8(s: string, ins: string)
    ensures InsertAtChars(Utf8(s), Utf8(ins)) == Utf8(Replace(s, "", ins))
  {
    InsertAtCharsOfInterleave(s, ins);
  }

  lemma {:induction false} InsertAtCharsOfInterleave(s: string, ins: string)
    ensures InsertAtChars(Utf8(s), Utf8(ins)) == Utf8(Interleave(s, ins))
    decreases |s|
  {
    if |s| > 0 {
      InsertAtCharsOfInterleave(s[1..], ins);
      InsertAtCharsOfInterleaveStep(s[0], s[1..], ins);
      assert s == [s[0]] + s[1..];
    }
  }

  /** One character more in front of a text for which `InsertAtCharsOfInterleave` holds. */
  lemma InsertAtCharsOfInterleaveStep(c: char, rest: string, ins: string)
    requires InsertAtChars(Utf8(rest), Utf8(ins)) == Utf8(Interleave(rest, ins))
    ensures InsertAtChars(Utf8([c] + rest), Utf8(ins)) == Utf8(Interleave([c] + rest, ins))
  {
    Utf8Concat([c], rest);
    InsertAtCharsOfEncoded(c, Utf8(rest), Utf8(ins));
    var tail := Interleave(rest, ins);
    assert ([c] + rest)[1..] == rest;
    assert Interleave([c] + rest, ins) == ins + ([c] + tail);
    Utf8OfInterleaveStep(c, tail, ins);
  }

  /** The first step of `InsertAtChars` on a text starting with an encoded character. */
  lemma InsertAtCharsOfEncoded(c: char, rest: Bytes, ins: Bytes)
    ensures InsertAtChars(Utf8([c]) + rest, ins) == ins + Utf8([c]) + InsertAtChars(rest, ins)
  {
    var e := EncodeChar(c);
    assert Utf8([c]) == e by {
      assert [c][1..] == [];
    }
    var data := e + rest;
    CharLengthOfEncoded(c, rest);
    assert data[..|e|] == e && data[|e|..] == rest;
  }

  lemma Utf8OfInterleaveStep(c: char, tail: string, ins: string)
    ensures Utf8(ins) + Utf8([c]) + Utf8(tail) == Utf8(ins + ([c] + tail))
  {
    Utf8Concat(ins, [c] + tail);
    Utf8Concat([c], tail);
  }

  /** Swapping one ASCII character for another (`s.replace("\\", "/")`) keeps the
      UTF-8 length. */
  lemma {:induction false} AsciiSwapKeepsUtf8Length(s: string, c: char, d: char)
    requires c as int < 0x80 && d as int < 0x80
    ensures |Utf8(Replace(s, [c], [d]))| == |Utf8(s)|
    decreases |s|
  {
    if |s| > 0 {
      AsciiSwapKeepsUtf8Length(s[1..], c, d);
      var rest := Replace(s[1..], [c], [d]);
      if [c] <= s {
        Utf8Concat([d], rest);
        Utf8Concat([c], s[1..]);
        assert s == [c] + s[1..];
      } else {
        Utf8Concat([s[0]], rest);
        Utf8Concat([s[0]], s[1..]);
        assert s == [s[0]] + s[1..];
      }
    }
  }
}
