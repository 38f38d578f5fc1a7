/** Python string operations over `seq<char>`. The frame formatter calls
    `str.strip()` with no argument, `str.split(sep)` with a one-character
    separator and `str.upper()` (restricted to ASCII letters); `sep.join(...)`
    and `str.count(ch)` are modelled only to state properties of `split`. */
module Strings {

  /** The characters `str.isspace()` accepts, which is the set `str.strip()`
      removes when called without an argument. */
  predicate IsSpace(c: char) {
    || c == ' '
    || ('\t' <= c <= '\r')
    || ('\U{1C}' <= c <= '\U{1F}')
    || c == '\U{85}'
    || c == '\U{A0}'
    || c == '\U{1680}'
    || ('\U{2000}' <= c <= '\U{200A}')
    || c == '\U{2028}'
    || c == '\U{2029}'
    || c == '\U{202F}'
    || c == '\U{205F}'
    || c == '\U{3000}'
  }

  predicate AllSpace(s: string) {
    forall i :: 0 <= i < |s| ==> IsSpace(s[i])
  }

  /** A string that is empty or starts and ends with a non-space character:
      the shape of everything `strip()` returns. */
  predicate Stripped(s: string) {
    s == [] || (!IsSpace(s[0]) && !IsSpace(s[|s| - 1]))
  }

  /** `str.lstrip()`: drop leading whitespace. */
  function TrimLeft(s: string): (r: string)
    ensures |r| <= |s|
  {
    if |s| > 0 && IsSpace(s[0]) then TrimLeft(s[1..]) else s
  }

  /** `str.rstrip()`: drop trailing whitespace. */
  function TrimRight(s: string): (r: string)
    ensures |r| <= |s|
  {
    if |s| > 0 && IsSpace(s[|s| - 1]) then TrimRight(s[..|s| - 1]) else s
  }

  /** `lstrip()` keeps a suffix of its input. */
  lemma {:induction false} TrimLeftSuffix(s: string)
    ensures s == s[..|s| - |TrimLeft(s)|] + TrimLeft(s)
    decreases |s|
  {
    if |s| > 0 && IsSpace(s[0]) {
      TrimLeftSuffix(s[1..]);
      assert s[..|s| - |TrimLeft(s)|] == [s[0]] + s[1..][..|s| - 1 - |TrimLeft(s)|];
    }
  }

  /** What `lstrip()` cuts is whitespace. */
  lemma {:induction false} TrimLeftCut(s: string)
    ensures AllSpace(s[..|s| - |TrimLeft(s)|])
    decreases |s|
  {
    if |s| > 0 && IsSpace(s[0]) {
      TrimLeftCut(s[1..]);
      assert s[..|s| - |TrimLeft(s)|] == [s[0]] + s[1..][..|s| - 1 - |TrimLeft(s)|];
    }
  }

  /** What `lstrip()` keeps does not start with whitespace. */
  lemma {:induction false} TrimLeftStart(s: string)
    ensures TrimLeft(s) == [] || !IsSpace(TrimLeft(s)[0])
    decreases |s|
  {
    if |s| > 0 && IsSpace(s[0]) {
      TrimLeftStart(s[1..]);
    }
  }

  /** `rstrip()` keeps a prefix of its input. */
  lemma {:induction false} TrimRightPrefix(s: string)
    ensures s == TrimRight(s) + s[|TrimRight(s)|..]
    decreases |s|
  {
    if |s| > 0 && IsSpace(s[|s| - 1]) {
      var p := s[..|s| - 1];
      TrimRightPrefix(p);
      assert s[|TrimRight(s)|..] == p[|TrimRight(s)|..] + [s[|s| - 1]];
    }
  }

  /** What `rstrip()` cuts is whitespace. */
  lemma {:induction false} TrimRightCut(s: string)
    ensures AllSpace(s[|TrimRight(s)|..])
    decreases |s|
  {
    if |s| > 0 && IsSpace(s[|s| - 1]) {
      var p := s[..|s| - 1];
      TrimRightCut(p);
      assert s[|TrimRight(s)|..] == p[|TrimRight(s)|..] + [s[|s| - 1]];
    }
  }

  /** What `rstrip()` keeps does not end with whitespace. */
  lemma {:induction false} TrimRightEnd(s: string)
    ensures TrimRight(s) == [] || !IsSpace(TrimRight(s)[|TrimRight(s)| - 1])
    decreases |s|
  {
    if |s| > 0 && IsSpace(s[|s| - 1]) {
      TrimRightEnd(s[..|s| - 1]);
    }
  }

  /** `str.strip()`: `lstrip()` followed by `rstrip()`. */
  function Trim(s: string): (r: string)
    ensures |r| <= |s|
  {
    TrimRight(TrimLeft(s))
  }

  /** Nothing left at either end of what `strip()` returns is whitespace. */
  lemma TrimStripped(s: string)
    ensures Stripped(Trim(s))
  {
    TrimLeftStart(s);
    TrimRightPrefix(TrimLeft(s));
    TrimRightEnd(TrimLeft(s));
  }

  /** The input of `strip()` is whitespace, then the result, then whitespace:
      the result is a contiguous slice and only whitespace was cut around it. */
  lemma TrimDecompose(s: string) returns (cut: string, rest: string)
    ensures s == cut + Trim(s) + rest
    ensures AllSpace(cut) && AllSpace(rest)
  {
    var l := TrimLeft(s);
    TrimLeftSuffix(s);
    TrimLeftCut(s);
    TrimRightPrefix(l);
    TrimRightCut(l);
    cut, rest := s[..|s| - |l|], l[|Trim(s)|..];
  }

  lemma {:induction false} TrimLeftSkipsSpace(a: string, x: string)
    requires AllSpace(a)
    ensures TrimLeft(a + x) == TrimLeft(x)
    decreases |a|
  {
    if |a| > 0 {
      assert (a + x)[0] == a[0];
      assert (a + x)[1..] == a[1..] + x;
      TrimLeftSkipsSpace(a[1..], x);
    } else {
      assert a + x == x;
    }
  }

  lemma {:induction false} TrimRightSkipsSpace(x: string, b: string)
    requires AllSpace(b)
    ensures TrimRight(x + b) == TrimRight(x)
    decreases |b|
  {
    if |b| > 0 {
      assert (x + b)[|x + b| - 1] == b[|b| - 1];
      assert (x + b)[..|x + b| - 1] == x + b[..|b| - 1];
      TrimRightSkipsSpace(x, b[..|b| - 1]);
    } else {
      assert x + b == x;
    }
  }

  /** The slice `strip()` keeps is the only one of its kind: any way of writing
      `s` as whitespace, a stripped middle and whitespace gives back `Trim(s)`
      as that middle. This is the independent description of `strip()`. */
  lemma TrimUnique(a: string, m: string, b: string)
    requires AllSpace(a) && AllSpace(b) && Stripped(m)
    ensures Trim(a + m + b) == m
  {
    TrimLeftSkipsSpace(a, m + b);
    assert a + m + b == a + (m + b);
    if m == [] {
      assert m + b == b;
      TrimLeftSkipsSpace(b, []);
      assert b + [] == b;
    } else {
      assert TrimLeft(m + b) == m + b;
      TrimRightSkipsSpace(m, b);
    }
  }

  lemma AllSpaceAppend(x: string, y: string)
    requires AllSpace(x) && AllSpace(y)
    ensures AllSpace(x + y)
  {
    forall k | 0 <= k < |x + y|
      ensures IsSpace((x + y)[k])
    {
      if k < |x| { assert (x + y)[k] == x[k]; } else { assert (x + y)[k] == y[k - |x|]; }
    }
  }

  /** Surrounding whitespace never changes what `strip()` returns. */
  lemma TrimIgnoresPadding(a: string, s: string, b: string)
    requires AllSpace(a) && AllSpace(b)
    ensures Trim(a + s + b) == Trim(s)
  {
    var m := Trim(s);
    var cut, rest := TrimDecompose(s);
    TrimStripped(s);
    AllSpaceAppend(a, cut);
    AllSpaceAppend(rest, b);
    assert a + s + b == (a + cut) + m + (rest + b);
    TrimUnique(a + cut, m, rest + b);
  }

  /** `strip()` applied twice is `strip()` applied once. */
  lemma TrimIdempotent(s: string)
    ensures Trim(Trim(s)) == Trim(s)
  {
    var m := Trim(s);
    TrimStripped(s);
    assert [] + m + [] == m;
    TrimUnique([], m, []);
  }

  /** `strip()` only removes characters, so a character absent from the input
      is absent from the result. */
  lemma TrimKeepsAbsent(s: string, c: char)
    requires c !in s
    ensures c !in Trim(s)
  {
    var cut, rest := TrimDecompose(s);
  }

  /** `s.count(c)` for a single character. */
  function Count(s: string, c: char): nat {
    if |s| == 0 then 0 else (if s[0] == c then 1 else 0) + Count(s[1..], c)
  }

  lemma {:induction false} CountAppend(a: string, b: string, c: char)
    ensures Count(a + b, c) == Count(a, c) + Count(b, c)
    decreases |a|
  {
    if |a| > 0 {
      assert (a + b)[0] == a[0];
      assert (a + b)[1..] == a[1..] + b;
      CountAppend(a[1..], b, c);
    } else {
      assert a + b == b;
    }
  }

  /** `sep.join(fs)` for a one-character separator. */
  function Join(fs: seq<string>, sep: char): string {
    if |fs| == 0 then [] else if |fs| == 1 then fs[0] else fs[0] + [sep] + Join(fs[1..], sep)
  }

  /** `s.split(sep)` for a one-character separator: no field is dropped, so
      there is always one more field than separators, no field contains the
      separator, and joining the fields back gives the input. */
  function Split(s: string, sep: char): (r: seq<string>)
    ensures |r| == Count(s, sep) + 1
    ensures forall i :: 0 <= i < |r| ==> sep !in r[i]
    ensures Join(r, sep) == s
    decreases |s|
  {
    if |s| == 0 then [""]
    else
      var rest := Split(s[1..], sep);
      if s[0] == sep then
        assert s == [sep] + s[1..];
        [""] + rest
      else
        var r := [[s[0]] + rest[0]] + rest[1..];
        assert r[1..] == rest[1..];
        assert s == [s[0]] + s[1..];
        r
  }

  lemma {:induction false} SplitNoSeparator(a: string, sep: char)
    requires sep !in a
    ensures Split(a, sep) == [a]
    decreases |a|
  {
    if |a| > 0 {
      SplitNoSeparator(a[1..], sep);
      assert [a[0]] + a[1..] == a;
    }
  }

  /** Splitting a field followed by the separator peels that field off. */
  lemma {:induction false} SplitAtSeparator(a: string, sep: char, b: string)
    requires sep !in a
    ensures Split(a + [sep] + b, sep) == [a] + Split(b, sep)
    decreases |a|
  {
    var s := a + [sep] + b;
    if |a| == 0 {
      assert s[1..] == b;
    } else {
      assert s[1..] == a[1..] + [sep] + b;
      SplitAtSeparator(a[1..], sep, b);
      assert [a[0]] + a[1..] == a;
    }
  }

  /** Splitting a join gives back the fields, provided none of them holds the
      separator (the reverse round trip is the ensures of `Split`). */
  lemma {:induction false} SplitJoin(fs: seq<string>, sep: char)
    requires |fs| >= 1
    requires forall i :: 0 <= i < |fs| ==> sep !in fs[i]
    ensures Split(Join(fs, sep), sep) == fs
    decreases |fs|
  {
    if |fs| == 1 {
      SplitNoSeparator(fs[0], sep);
    } else {
      SplitJoin(fs[1..], sep);
      SplitAtSeparator(fs[0], sep, Join(fs[1..], sep));
      assert [fs[0]] + fs[1..] == fs;
    }
  }

  /** `str.upper()` on one character; only ASCII letters are mapped. */
  function UpperChar(c: char): char {
    if 'a' <= c <= 'z' then (c as int - 32) as char else c
  }

  /** `str.upper()` over ASCII: no lower-case letter survives, each one
      becomes the upper-case letter at the same place in the alphabet, and
      every other character is kept where it was. */
  function Upper(s: string): (r: string)
    ensures |r| == |s|
    ensures forall i :: 0 <= i < |r| ==> !('a' <= r[i] <= 'z')
    ensures forall i :: 0 <= i < |s| && 'a' <= s[i] <= 'z' ==>
      'A' <= r[i] <= 'Z' && r[i] as int - 'A' as int == s[i] as int - 'a' as int
    ensures forall i :: 0 <= i < |s| && !('a' <= s[i] <= 'z') ==> r[i] == s[i]
  {
    seq(|s|, i requires 0 <= i < |s| => UpperChar(s[i]))
  }

  /** `upper()` leaves a string alone when it holds no lower-case ASCII letter. */
  lemma UpperIdentity(s: string)
    requires forall i :: 0 <= i < |s| ==> !('a' <= s[i] <= 'z')
    ensures Upper(s) == s
  {
  }

  /** Upper-casing twice is upper-casing once. */
  lemma UpperIdempotent(s: string)
    ensures Upper(Upper(s)) == Upper(s)
  {
    UpperIdentity(Upper(s));
  }
}
