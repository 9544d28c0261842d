/**
 * The string operations of Python's `str` and `os.path` that the downloader
 * relies on: `lower()`, `strip()`, `startswith`/`endswith`, `split(',')`,
 * `','.join` (as the inverse of `split`) and `os.path.splitext`.
 */
module Text {
  import opened Wrappers

  /** `str.lower()` on one character: ASCII and Latin-1 capitals map to their
      small letters (so 'Í' becomes 'í'); every other character is kept. */
  function LowerChar(c: char): char {
    if 'A' <= c <= 'Z' || ('\U{C0}' <= c <= '\U{DE}' && c != '\U{D7}') then
      (c as int + 32) as char
    else
      c
  }

  /** `str.lower()`, one character at a time; the length never changes. */
  function Lower(s: string): string {
    seq(|s|, i requires 0 <= i < |s| => LowerChar(s[i]))
  }

  lemma LowerSuffix(s: string, k: nat)
    requires k <= |s|
    ensures Lower(s[k..]) == Lower(s)[k..]
  {
  }

  /** Lowering a lowered string changes nothing: no small letter is a capital. */
  lemma LowerIdempotent(s: string)
    ensures Lower(Lower(s)) == Lower(s)
  {
    forall i | 0 <= i < |s|
      ensures Lower(Lower(s))[i] == Lower(s)[i]
    {
      assert Lower(s)[i] == LowerChar(s[i]);
    }
  }

  /** Only '.' lowers to '.', so lowering keeps every dot where it was. */
  lemma LowerDot(c: char)
    ensures LowerChar(c) == '.' <==> c == '.'
  {
  }

  /** The whitespace that Python's `str.strip()` removes. */
  predicate IsSpace(c: char) {
    || '\t' <= c <= '\r'
    || '\U{1C}' <= c <= ' '
    || c == '\U{85}' || c == '\U{A0}' || c == '\U{1680}'
    || '\U{2000}' <= c <= '\U{200A}'
    || c == '\U{2028}' || c == '\U{2029}' || c == '\U{202F}' || c == '\U{205F}'
    || c == '\U{3000}'
  }

  predicate AllSpace(s: string) {
    forall k :: 0 <= k < |s| ==> IsSpace(s[k])
  }

  /** `str.lstrip()`. */
  function TrimStart(s: string): string {
    if s != [] && IsSpace(s[0]) then TrimStart(s[1..]) else s
  }

  /** `str.rstrip()`. */
  function TrimEnd(s: string): string {
    if s != [] && IsSpace(s[|s| - 1]) then TrimEnd(s[..|s| - 1]) else s
  }

  /** `str.strip()`. */
  function Strip(s: string): string {
    TrimEnd(TrimStart(s))
  }

  /** `lstrip()` keeps a suffix that does not start with whitespace and
      drops only whitespace. */
  lemma {:induction false} TrimStartSpec(s: string)
    ensures var r := TrimStart(s);
      && |r| <= |s| && r == s[|s| - |r|..]
      && (r == [] || !IsSpace(r[0]))
      && AllSpace(s[..|s| - |r|])
  {
    if s != [] && IsSpace(s[0]) {
      TrimStartSpec(s[1..]);
      var r := TrimStart(s[1..]);
      assert s[1..][|s| - 1 - |r|..] == s[|s| - |r|..];
      assert s[..|s| - |r|] == [s[0]] + s[1..][..|s| - 1 - |r|];
    }
  }

  /** `rstrip()` keeps a prefix that does not end with whitespace and
      drops only whitespace. */
  lemma {:induction false} TrimEndSpec(s: string)
    ensures var r := TrimEnd(s);
      && |r| <= |s| && r == s[..|r|]
      && (r == [] || !IsSpace(r[|r| - 1]))
      && AllSpace(s[|r|..])
  {
    if s != [] && IsSpace(s[|s| - 1]) {
      var init := s[..|s| - 1];
      TrimEndSpec(init);
      var r := TrimEnd(init);
      assert init[..|r|] == s[..|r|];
      assert s[|r|..] == init[|r|..] + [s[|s| - 1]];
    }
  }

  /** `strip()` keeps the slice `s[i..j]` and drops only whitespace on
      either side of it; what it keeps neither starts nor ends with
      whitespace. */
  lemma StripSpec(s: string) returns (i: nat, j: nat)
    ensures i <= j <= |s| && Strip(s) == s[i..j]
    ensures AllSpace(s[..i]) && AllSpace(s[j..])
    ensures Strip(s) == [] || (!IsSpace(Strip(s)[0]) && !IsSpace(Strip(s)[|Strip(s)| - 1]))
  {
    var t := TrimStart(s);
    TrimStartSpec(s);
    TrimEndSpec(t);
    var u := TrimEnd(t);
    i := |s| - |t|;
    j := i + |u|;
    assert s[i..j] == t[..|u|];
    assert s[j..] == t[|u|..];
  }

  predicate EndsWith(s: string, suffix: string) {
    |suffix| <= |s| && s[|s| - |suffix|..] == suffix
  }

  predicate StartsWith(s: string, prefix: string) {
    |prefix| <= |s| && s[..|prefix|] == prefix
  }

  lemma {:induction false} TrimStartSkipsSpace(pad: string, s: string)
    requires AllSpace(pad)
    ensures TrimStart(pad + s) == TrimStart(s)
  {
    if pad == [] {
      assert pad + s == s;
    } else {
      assert (pad + s)[0] == pad[0];
      assert (pad + s)[1..] == pad[1..] + s;
      TrimStartSkipsSpace(pad[1..], s);
    }
  }

  lemma {:induction false} TrimEndSkipsSpace(s: string, pad: string)
    requires AllSpace(pad)
    ensures TrimEnd(s + pad) == TrimEnd(s)
  {
    if pad == [] {
      assert s + pad == s;
    } else {
      assert (s + pad)[|s + pad| - 1] == pad[|pad| - 1];
      assert (s + pad)[..|s + pad| - 1] == s + pad[..|pad| - 1];
      TrimEndSkipsSpace(s, pad[..|pad| - 1]);
    }
  }

  /** Text after a string that holds something other than whitespace
      survives `lstrip()` untouched. */
  lemma {:induction false} TrimStartAppend(s: string, after: string)
    requires TrimStart(s) != []
    ensures TrimStart(s + after) == TrimStart(s) + after
  {
    assert s != [] && (s + after)[0] == s[0];
    if IsSpace(s[0]) {
      assert (s + after)[1..] == s[1..] + after;
      TrimStartAppend(s[1..], after);
    }
  }

  /** Padding `s` with whitespace on either side does not change what
      `strip()` returns; with StripTrimmed this determines `Strip` completely. */
  lemma StripPadded(before: string, s: string, after: string)
    requires AllSpace(before) && AllSpace(after)
    ensures Strip(before + s + after) == Strip(s)
  {
    assert before + s + after == before + (s + after);
    TrimStartSkipsSpace(before, s + after);
    var t := TrimStart(s);
    if t != [] {
      TrimStartAppend(s, after);
      TrimEndSkipsSpace(t, after);
    } else {
      TrimStartSpec(s);
      assert AllSpace(s + after);
      TrimStartSkipsSpace(s + after, []);
      assert s + after + [] == s + after;
    }
  }

  /** `s.strip()` is empty exactly when `s` is all whitespace. */
  lemma StripBlank(s: string)
    ensures Strip(s) == [] <==> AllSpace(s)
  {
    var i, j := StripSpec(s);
    assert s == s[..i] + s[i..j] + s[j..];
  }

  /** Every character of `s.strip()` is a character of `s`. */
  lemma StripChars(s: string, c: char)
    requires c in Strip(s)
    ensures c in s
  {
    var i, j := StripSpec(s);
    var k :| 0 <= k < j - i && s[i..j][k] == c;
    assert s[i + k] == c;
  }

  /** A string that neither starts nor ends with whitespace is its own `strip()`. */
  lemma StripTrimmed(s: string)
    requires s == [] || (!IsSpace(s[0]) && !IsSpace(s[|s| - 1]))
    ensures Strip(s) == s
  {
  }

  lemma StripIdempotent(s: string)
    ensures Strip(Strip(s)) == Strip(s)
  {
    var _, _ := StripSpec(s);
    StripTrimmed(Strip(s));
  }

  /** Python's `s.split(sep)` with a one-character separator: the pieces
      between separators, empty pieces included; never an empty list. */
  function Split(s: string, sep: char): (parts: seq<string>)
    ensures |parts| >= 1
    ensures forall i :: 0 <= i < |parts| ==> sep !in parts[i]
  {
    if s == [] then
      [[]]
    else
      var rest := Split(s[1..], sep);
      if s[0] == sep then [[]] + rest else [[s[0]] + rest[0]] + rest[1..]
  }

  /** `sep.join(parts)`. */
  function Join(parts: seq<string>, sep: char): string {
    if parts == [] then []
    else if |parts| == 1 then parts[0]
    else parts[0] + [sep] + Join(parts[1..], sep)
  }

  /** Joining the pieces of a split gives back the original string. */
  lemma {:induction false} JoinSplit(s: string, sep: char)
    ensures Join(Split(s, sep), sep) == s
  {
    if s != [] {
      var rest := Split(s[1..], sep);
      JoinSplit(s[1..], sep);
      if s[0] == sep {
        assert ([[]] + rest)[1..] == rest;
      } else {
        var parts := [[s[0]] + rest[0]] + rest[1..];
        if |rest| > 1 {
          assert parts[1..] == rest[1..];
          assert Join(rest, sep) == rest[0] + [sep] + Join(rest[1..], sep);
        }
      }
    }
  }

  /** Splitting a join of separator-free pieces gives back the pieces. */
  lemma {:induction false} SplitJoin(parts: seq<string>, sep: char)
    requires |parts| >= 1
    requires forall i :: 0 <= i < |parts| ==> sep !in parts[i]
    ensures Split(Join(parts, sep), sep) == parts
  {
    if |parts| == 1 {
      SplitPiece(parts[0], [], sep);
      assert parts[0] + [] == parts[0];
    } else {
      SplitJoin(parts[1..], sep);
      var tail := Join(parts[1..], sep);
      assert Split([sep] + tail, sep) == [[]] + parts[1..] by {
        assert ([sep] + tail)[1..] == tail;
      }
      assert Join(parts, sep) == parts[0] + ([sep] + tail);
      SplitPiece(parts[0], [sep] + tail, sep);
      var r := [[]] + parts[1..];
      assert r[0] == [] && r[1..] == parts[1..];
      assert parts[0] + r[0] == parts[0];
      assert parts == [parts[0]] + parts[1..];
    }
  }

  /** A separator-free prefix glues onto the first piece of what follows it. */
  lemma {:induction false} SplitPiece(p: string, s: string, sep: char)
    requires sep !in p
    ensures var r := Split(s, sep);
      Split(p + s, sep) == [p + r[0]] + r[1..]
  {
    if p != [] {
      assert (p + s)[1..] == p[1..] + s;
      SplitPiece(p[1..], s, sep);
      assert [p[0]] + (p[1..] + Split(s, sep)[0]) == p + Split(s, sep)[0];
    } else {
      var r := Split(s, sep);
      assert p + s == s && p + r[0] == r[0];
      assert [r[0]] + r[1..] == r;
    }
  }

  /** Index of the last occurrence of `c` in `s`, like `str.rfind`. */
  function LastIndexOf(s: string, c: char): (r: Option<nat>)
    ensures r.Some? ==> r.value < |s| && s[r.value] == c
    ensures r.Some? ==> forall k :: r.value < k < |s| ==> s[k] != c
    ensures r.None? <==> c !in s
  {
    if s == [] then None
    else if s[|s| - 1] == c then Some(|s| - 1)
    else
      assert s == s[..|s| - 1] + [s[|s| - 1]];
      LastIndexOf(s[..|s| - 1], c)
  }

  /** The last occurrence is the one with no occurrence after it. */
  lemma LastIndexOfUnique(s: string, c: char, d: nat)
    requires d < |s| && s[d] == c
    requires forall j :: d < j < |s| ==> s[j] != c
    ensures LastIndexOf(s, c) == Some(d)
  {
    assert s[d] in s;
  }

  predicate AllDots(s: string) {
    forall k :: 0 <= k < |s| ==> s[k] == '.'
  }

  /** `os.path.splitext` on a bare file name (one that holds no path
      separator): the extension runs from the last dot to the end, unless
      every character before that dot is itself a dot (".xls", "..xls"), in
      which case there is no extension. */
  function SplitExt(name: string): (parts: (string, string))
    ensures parts.0 + parts.1 == name
    ensures parts.1 == [] || (parts.1[0] == '.' && '.' !in parts.1[1..])
    ensures parts.1 != [] ==> !AllDots(parts.0)
  {
    match LastIndexOf(name, '.')
    case None => (name, [])
    case Some(d) =>
      if AllDots(name[..d]) then (name, [])
      else
        assert name[..d] + name[d..] == name;
        (name[..d], name[d..])
  }
}
