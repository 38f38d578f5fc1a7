/** The device frame built by `Form.__format_string`: `ROG|`, every
    `|`-separated field of the record stripped and `|`-terminated in order,
    the date token (also `|`-terminated) right after the field at index 1,
    and the sentinel `%%%`. */
module Frame {
  import opened Strings
  import opened Calendar

  const Delimiter: char := '|'
  const Header: string := "ROG|"
  const Sentinel: string := "%%%"

  /** The record's fields: a plain split on `|`, nothing filtered. */
  function Fields(text: string): seq<string> {
    Split(text, Delimiter)
  }

  /** Every field stripped on its own: the count and order are kept, no
      stripped field has whitespace at either end, and fields free of `|`
      stay free of it. */
  function TrimAll(fs: seq<string>): (r: seq<string>)
    ensures |r| == |fs|
    ensures forall i :: 0 <= i < |fs| ==> r[i] == Trim(fs[i])
    ensures forall i :: 0 <= i < |r| ==> Stripped(r[i])
    ensures NoDelimiter(fs) ==> NoDelimiter(r)
  {
    TrimEach(fs);
    seq(|fs|, i requires 0 <= i < |fs| => Trim(fs[i]))
  }

  lemma TrimEach(fs: seq<string>)
    ensures forall i :: 0 <= i < |fs| ==> Stripped(Trim(fs[i]))
    ensures forall i :: 0 <= i < |fs| && Delimiter !in fs[i] ==> Delimiter !in Trim(fs[i])
  {
    forall i | 0 <= i < |fs|
      ensures Stripped(Trim(fs[i]))
      ensures Delimiter !in fs[i] ==> Delimiter !in Trim(fs[i])
    {
      TrimStripped(fs[i]);
      if Delimiter !in fs[i] {
        TrimKeepsAbsent(fs[i], Delimiter);
      }
    }
  }

  /** The positional rule: the date token goes after the field at index 1,
      and only when that field exists. */
  function WithDate(fs: seq<string>, token: string): seq<string> {
    if |fs| < 2 then fs else fs[..2] + [token] + fs[2..]
  }

  /** Each element followed by its own `|`. */
  function Terminated(fs: seq<string>): string {
    if |fs| == 0 then [] else fs[0] + [Delimiter] + Terminated(fs[1..])
  }

  /** The frame for `text` around an already formatted date token: never
      empty, always opened by `ROG|` and closed by `%%%`, whatever the input,
      the empty string included. */
  function Assemble(text: string, token: string): (r: string)
    ensures |r| >= |Header| + 1 + |Sentinel|
    ensures r[..|Header|] == Header
    ensures r[|r| - |Sentinel|..] == Sentinel
    ensures r[|r| - |Sentinel| - 1] == Delimiter
  {
    Enclose(WithDate(TrimAll(Fields(text)), token))
  }

  /** The frame for `text` on date `d`: the token is built once from `d`. */
  function FormatFrame(text: string, d: Date): (r: string)
    requires ValidDate(d)
    ensures |r| >= |Header| + 1 + |Sentinel|
    ensures r[..|Header|] == Header
    ensures r[|r| - |Sentinel|..] == Sentinel
  {
    Assemble(text, DateToken(d))
  }

  /** `Assemble` spelled out, for proofs that should not unfold anything else. */
  lemma AssembleUnfold(text: string, token: string)
    ensures Assemble(text, token) == Header + Terminated(WithDate(TrimAll(Fields(text)), token)) + Sentinel
  {
  }

  /** `FormatFrame` spelled out, likewise. */
  lemma FormatFrameUnfold(text: string, d: Date)
    requires ValidDate(d)
    ensures FormatFrame(text, d) == Assemble(text, DateToken(d))
  {
  }

  /** The slots, each `|`-terminated, between `ROG|` and `%%%`; with at
      least one slot there is a `|` right before the sentinel. */
  function Enclose(slots: seq<string>): (r: string)
    requires |slots| >= 1
    ensures |r| >= |Header| + 1 + |Sentinel|
    ensures r[..|Header|] == Header
    ensures r[|r| - |Sentinel|..] == Sentinel
    ensures r[|r| - |Sentinel| - 1] == Delimiter
  {
    var n := |slots|;
    assert slots == slots[..n - 1] + [slots[n - 1]];
    TerminatedAppend(slots[..n - 1], slots[n - 1]);
    Header + Terminated(slots) + Sentinel
  }

  lemma Regroup(h: string, t: string, e: string)
    ensures h + (t + e) == h + t + e
  {
  }

  lemma {:induction false} TerminatedAppend(fs: seq<string>, x: string)
    ensures Terminated(fs + [x]) == Terminated(fs) + (x + [Delimiter])
    decreases |fs|
  {
    if |fs| == 0 {
      assert [] + [x] == [x];
      assert [x][1..] == [];
    } else {
      assert (fs + [x])[1..] == fs[1..] + [x];
      TerminatedAppend(fs[1..], x);
      Regroup(fs[0] + [Delimiter], Terminated(fs[1..]), x + [Delimiter]);
    }
  }

  lemma TrimAllStep(parts: seq<string>, i: nat)
    requires i < |parts|
    ensures TrimAll(parts[..i + 1]) == TrimAll(parts[..i]) + [Trim(parts[i])]
  {
  }

  /** How the insertion rule grows by one field: the field is appended, and
      the token follows it when it is the field at index 1. */
  lemma WithDateStep(ts: seq<string>, x: string, token: string)
    ensures WithDate(ts + [x], token)
         == if |ts| == 1 then WithDate(ts, token) + [x] + [token] else WithDate(ts, token) + [x]
  {
    if |ts| >= 2 {
      assert (ts + [x])[..2] == ts[..2];
      assert (ts + [x])[2..] == ts[2..] + [x];
    } else if |ts| == 1 {
      assert (ts + [x])[..2] == ts + [x];
      assert (ts + [x])[2..] == [];
    }
  }

  /** One iteration of the formatting loop: the stripped field and `|`, and
      after the field at index 1 the token and `|`. */
  lemma FormatStep(parts: seq<string>, i: nat, token: string)
    requires i < |parts|
    ensures Terminated(WithDate(TrimAll(parts[..i + 1]), token))
         == Terminated(WithDate(TrimAll(parts[..i]), token)) + Trim(parts[i]) + [Delimiter]
            + (if i == 1 then token + [Delimiter] else [])
  {
    var ts := TrimAll(parts[..i]);
    var x := Trim(parts[i]);
    var before := WithDate(ts, token);
    TrimAllStep(parts, i);
    WithDateStep(ts, x, token);
    TerminatedAppend(before, x);
    Regroup(Terminated(before), x, [Delimiter]);
    if i == 1 {
      TerminatedAppend(before + [x], token);
    }
  }

  lemma AppendRegroup(h: string, t: string, x: string, e: string)
    ensures h + t + x + [Delimiter] + e == h + (t + x + [Delimiter] + e)
  {
  }

  /** The loop of `__format_string` on an already formatted token: one pass
      over the split fields, appending each stripped field and `|`, and the
      token and `|` after the field at index 1, then the sentinel. */
  method FormatFields(text: string, token: string) returns (formatted: string)
    ensures formatted == Assemble(text, token)
  {
    var parts := Split(text, Delimiter);
    formatted := Header;
    var i := 0;
    while i < |parts|
      invariant 0 <= i <= |parts|
      invariant formatted == Header + Terminated(WithDate(TrimAll(parts[..i]), token))
    {
      ghost var done := Terminated(WithDate(TrimAll(parts[..i]), token));
      ghost var extra: string := if i == 1 then token + [Delimiter] else [];
      FormatStep(parts, i, token);
      AppendRegroup(Header, done, Trim(parts[i]), extra);
      formatted := formatted + Trim(parts[i]) + [Delimiter];
      if i == 1 {
        formatted := formatted + token + [Delimiter];
      } else {
        // no token after any field but the one at index 1
        assert extra == [] && formatted + extra == formatted;
      }
      i := i + 1;
    }
    assert parts[..|parts|] == parts;
    formatted := formatted + Sentinel;
    AssembleUnfold(text, token);
  }

  /** `__format_string`: the token is computed once, before the loop, and
      the string built is the frame `FormatFrame` describes. */
  method FormatString(text: string, d: Date) returns (formatted: string)
    requires ValidDate(d)
    ensures formatted == FormatFrame(text, d)
  {
    var currentDate := DateToken(d);
    formatted := FormatFields(text, currentDate);
  }

  /** A terminated list followed by a last element is the `|`-join of the
      list extended by that element. */
  lemma {:induction false} TerminatedJoin(fs: seq<string>, last: string)
    ensures Terminated(fs) + last == Join(fs + [last], Delimiter)
    decreases |fs|
  {
    if |fs| == 0 {
      assert [] + [last] == [last];
    } else {
      TerminatedJoin(fs[1..], last);
      assert (fs + [last])[1..] == fs[1..] + [last];
    }
  }

  /** Header, terminated elements and sentinel are the `|`-join of `ROG`,
      the elements and `%%%`. */
  lemma EnclosedIsJoin(xs: seq<string>)
    ensures Header + Terminated(xs) + Sentinel == Join(["ROG"] + xs + ["%%%"], Delimiter)
  {
    TerminatedJoin(xs, Sentinel);
    Regroup(Header, Terminated(xs), Sentinel);
    var all := ["ROG"] + xs + ["%%%"];
    assert all[1..] == xs + ["%%%"];
  }

  /** The slots of a frame: what splitting it on `|` gives back. */
  function Slots(text: string, token: string): seq<string> {
    ["ROG"] + WithDate(TrimAll(Fields(text)), token) + ["%%%"]
  }

  predicate NoDelimiter(fs: seq<string>) {
    forall i :: 0 <= i < |fs| ==> Delimiter !in fs[i]
  }

  lemma WithDateNoDelimiter(fs: seq<string>, token: string)
    requires NoDelimiter(fs) && Delimiter !in token
    ensures NoDelimiter(WithDate(fs, token))
  {
    if |fs| >= 2 {
      var w := WithDate(fs, token);
      forall i | 0 <= i < |w|
        ensures Delimiter !in w[i]
      {
        if i < 2 {
          assert w[i] == fs[i];
        } else if i > 2 {
          assert w[i] == fs[i - 1];
        }
      }
    }
  }

  lemma EncloseNoDelimiter(xs: seq<string>)
    requires NoDelimiter(xs)
    ensures NoDelimiter(["ROG"] + xs + ["%%%"])
  {
    var s := ["ROG"] + xs + ["%%%"];
    forall i | 0 <= i < |s|
      ensures Delimiter !in s[i]
    {
      if 0 < i < |s| - 1 {
        assert s[i] == xs[i - 1];
      }
    }
  }

  /** No slot of a frame holds a `|`. */
  lemma SlotsHaveNoDelimiter(text: string, token: string)
    requires Delimiter !in token
    ensures NoDelimiter(Slots(text, token))
  {
    var fs := Fields(text);
    var ts := TrimAll(fs);
    forall i | 0 <= i < |ts|
      ensures Delimiter !in ts[i]
    {
      TrimKeepsAbsent(fs[i], Delimiter);
    }
    WithDateNoDelimiter(ts, token);
    EncloseNoDelimiter(WithDate(ts, token));
  }

  /** Splitting a frame on `|` gives `ROG`, the stripped fields in order with
      the token after the field at index 1, and `%%%`: every field survives,
      in place, followed by exactly one `|`. */
  lemma AssembleSplit(text: string, token: string)
    requires Delimiter !in token
    ensures Split(Assemble(text, token), Delimiter) == Slots(text, token)
  {
    EnclosedIsJoin(WithDate(TrimAll(Fields(text)), token));
    SlotsHaveNoDelimiter(text, token);
    SplitJoin(Slots(text, token), Delimiter);
  }

  /** The slots of a frame for the stripped fields `ts`: `ROG`, then the
      fields in order with the token right after the field at index 1 (and
      no token slot at all with fewer than two fields), then `%%%`. */
  predicate SlotLayout(out: seq<string>, ts: seq<string>, token: string) {
    && |out| == |ts| + 2 + (if |ts| >= 2 then 1 else 0)
    && out[0] == "ROG"
    && out[|out| - 1] == "%%%"
    && (forall i :: 0 <= i < |ts| && i < 2 ==> out[i + 1] == ts[i])
    && (|ts| >= 2 ==> out[3] == token)
    && (forall i :: 2 <= i < |ts| ==> out[i + 2] == ts[i])
  }

  /** The frame slot by slot: `n = count('|') + 1` fields give `n + 2`
      slots, plus one for the token when `n >= 2`; fields 0 and 1, stripped,
      sit at slots 1 and 2, the token at slot 3, and field `i >= 2` at slot
      `i + 2`. Every field survives, in order, followed by exactly one `|`. */
  lemma AssembleLayout(text: string, token: string)
    requires Delimiter !in token
    ensures |Fields(text)| == Count(text, Delimiter) + 1
    ensures SlotLayout(Split(Assemble(text, token), Delimiter), TrimAll(Fields(text)), token)
  {
    AssembleSplit(text, token);
    SlotsLayout(TrimAll(Fields(text)), token, Slots(text, token));
  }

  /** Where each element lands once the token is inserted and the list is
      enclosed by `ROG` and `%%%`. */
  lemma SlotsLayout(ts: seq<string>, token: string, out: seq<string>)
    requires out == ["ROG"] + WithDate(ts, token) + ["%%%"]
    ensures SlotLayout(out, ts, token)
  {
    var w := WithDate(ts, token);
    assert out[1..|out| - 1] == w;
    if |ts| >= 2 {
      assert w == ts[..2] + [token] + ts[2..];
    }
  }

  /** Number of `|` in the frame: one after `ROG`, one per field, and one
      more after the token when there are at least two fields. */
  lemma AssembleDelimiterCount(text: string, token: string)
    requires Delimiter !in token
    ensures var n := Count(text, Delimiter) + 1;
      Count(Assemble(text, token), Delimiter) == 1 + n + (if n >= 2 then 1 else 0)
  {
    AssembleLayout(text, token);
  }

  /** The layout of the frame for `text` on date `d`: the token slot holds
      `DateToken(d)`, which cannot disturb the slots since it has no `|`. */
  lemma FrameLayout(text: string, d: Date)
    requires ValidDate(d)
    ensures SlotLayout(Split(FormatFrame(text, d), Delimiter), TrimAll(Fields(text)), DateToken(d))
  {
    DateTokenNoDelimiter(d);
    FormatFrameUnfold(text, d);
    AssembleLayout(text, DateToken(d));
  }

  /** The `|` count of the frame for `text` on date `d`. */
  lemma FrameDelimiterCount(text: string, d: Date)
    requires ValidDate(d)
    ensures var n := Count(text, Delimiter) + 1;
      Count(FormatFrame(text, d), Delimiter) == 1 + n + (if n >= 2 then 1 else 0)
  {
    DateTokenNoDelimiter(d);
    AssembleDelimiterCount(text, DateToken(d));
  }

  /** A field without surrounding whitespace is its own strip. */
  lemma StrippedField(s: string)
    requires Stripped(s)
    ensures Trim(s) == s
  {
    assert [] + s + [] == s;
    TrimUnique([], s, []);
  }

  /** An empty record is one empty field: the frame is `ROG||%%%`. */
  lemma EmptyInputFrame(token: string)
    ensures Assemble("", token) == "ROG||%%%"
  {
    OneFieldFrame("", token);
  }

  lemma WithDateInjective(a: seq<string>, b: seq<string>, token: string)
    requires WithDate(a, token) == WithDate(b, token)
    ensures a == b
  {
    if |a| >= 2 && |b| >= 2 {
      var w := WithDate(a, token);
      assert a == w[..2] + w[3..];
      assert b == w[..2] + w[3..];
    }
  }

  /** On a fixed token, two records give the same frame exactly when they
      split into the same number of fields and the fields strip to the same
      text. */
  lemma AssembleDeterminedByTrimmedFields(t1: string, t2: string, token: string)
    requires Delimiter !in token
    ensures Assemble(t1, token) == Assemble(t2, token) <==> TrimAll(Fields(t1)) == TrimAll(Fields(t2))
  {
    if Assemble(t1, token) == Assemble(t2, token) {
      AssembleSplit(t1, token);
      AssembleSplit(t2, token);
      var s1 := Slots(t1, token);
      var s2 := Slots(t2, token);
      assert s1[1..|s1| - 1] == WithDate(TrimAll(Fields(t1)), token);
      assert s2[1..|s2| - 1] == WithDate(TrimAll(Fields(t2)), token);
      WithDateInjective(TrimAll(Fields(t1)), TrimAll(Fields(t2)), token);
    }
  }

  /** Each field wrapped in the given leading and trailing whitespace. */
  function Pad(lead: seq<string>, fs: seq<string>, trail: seq<string>): (r: seq<string>)
    requires |lead| == |fs| == |trail|
    ensures |r| == |fs|
    ensures forall i :: 0 <= i < |fs| ==> r[i] == lead[i] + fs[i] + trail[i]
  {
    seq(|fs|, i requires 0 <= i < |fs| => lead[i] + fs[i] + trail[i])
  }

  /** Padded fields strip to the unpadded ones and stay free of `|`. */
  lemma PaddedFields(lead: seq<string>, fs: seq<string>, trail: seq<string>)
    requires |lead| == |fs| == |trail|
    requires NoDelimiter(fs)
    requires forall i :: 0 <= i < |fs| ==> AllSpace(lead[i]) && AllSpace(trail[i])
    ensures NoDelimiter(Pad(lead, fs, trail))
    ensures TrimAll(Pad(lead, fs, trail)) == TrimAll(fs)
  {
    var padded := Pad(lead, fs, trail);
    forall i | 0 <= i < |fs|
      ensures Delimiter !in padded[i]
      ensures Trim(padded[i]) == Trim(fs[i])
    {
      TrimIgnoresPadding(lead[i], fs[i], trail[i]);
    }
  }

  /** Whitespace added around any field of a record leaves the frame as it
      was: `" a | b |c"` and `"a|b|c"` give the same frame. */
  lemma PaddingInvariance(lead: seq<string>, fs: seq<string>, trail: seq<string>, token: string)
    requires 1 <= |fs| && |lead| == |fs| == |trail|
    requires NoDelimiter(fs)
    requires forall i :: 0 <= i < |fs| ==> AllSpace(lead[i]) && AllSpace(trail[i])
    ensures Assemble(Join(Pad(lead, fs, trail), Delimiter), token) == Assemble(Join(fs, Delimiter), token)
  {
    var padded := Pad(lead, fs, trail);
    PaddedFields(lead, fs, trail);
    SplitJoin(padded, Delimiter);
    SplitJoin(fs, Delimiter);
    AssembleUnfold(Join(padded, Delimiter), token);
    AssembleUnfold(Join(fs, Delimiter), token);
  }

  /** What `readData` shows after a transfer: the decoded text is stripped,
      stripped again on the way into the formatter, and formatted. The second
      strip changes nothing. */
  function ReadDataFrame(fetched: string, d: Date): (r: string)
    requires ValidDate(d)
    ensures r == FormatFrame(Trim(fetched), d)
  {
    TrimIdempotent(fetched);
    FormatFrame(Trim(Trim(fetched)), d)
  }

  /** A blank or whitespace-only remote file still yields a frame: `ROG||%%%`. */
  lemma BlankFileFrame(fetched: string, d: Date)
    requires ValidDate(d)
    requires AllSpace(fetched)
    ensures ReadDataFrame(fetched, d) == "ROG||%%%"
  {
    assert fetched + [] + [] == fetched;
    TrimUnique(fetched, [], []);
    FormatFrameUnfold([], d);
    EmptyInputFrame(DateToken(d));
  }

  /** A record whose fields are already stripped is framed field for field. */
  lemma AssembleStrippedFields(fs: seq<string>, token: string)
    requires 1 <= |fs| && NoDelimiter(fs)
    requires forall i :: 0 <= i < |fs| ==> Stripped(fs[i])
    ensures Assemble(Join(fs, Delimiter), token) == Header + Terminated(WithDate(fs, token)) + Sentinel
  {
    SplitJoin(fs, Delimiter);
    TrimAllStripped(fs);
    AssembleUnfold(Join(fs, Delimiter), token);
  }

  lemma TrimAllStripped(fs: seq<string>)
    requires forall i :: 0 <= i < |fs| ==> Stripped(fs[i])
    ensures TrimAll(fs) == fs
  {
    forall i | 0 <= i < |fs|
      ensures Trim(fs[i]) == fs[i]
    {
      StrippedField(fs[i]);
    }
  }

  /** A single stripped field without `|` is framed alone, with no token. */
  lemma AssembleOne(a: string, token: string)
    requires Stripped(a) && Delimiter !in a
    ensures Assemble(a, token) == Header + a + [Delimiter] + Sentinel
  {
    OneStrippedField(a);
    AssembleStrippedFields([a], token);
    TerminatedOne(a);
  }

  lemma OneStrippedField(a: string)
    requires Stripped(a) && Delimiter !in a
    ensures Join([a], Delimiter) == a
    ensures NoDelimiter([a])
    ensures forall i :: 0 <= i < |[a]| ==> Stripped([a][i])
  {
  }

  lemma TerminatedOne(a: string)
    ensures Terminated([a]) == a + [Delimiter]
  {
    assert Terminated([a]) == a + [Delimiter] + Terminated([]);
  }

  /** One field already stripped: no token. With `ONLY` this is
      `ROG|ONLY|%%%`. */
  lemma OneFieldFrame(a: string, token: string)
    requires Stripped(a) && Delimiter !in a
    ensures Assemble(a, token) == "ROG|" + a + "|%%%"
  {
    AssembleOne(a, token);
    OneFieldText(a);
  }

  lemma OneFieldText(a: string)
    ensures Header + a + [Delimiter] + Sentinel == "ROG|" + a + "|%%%"
  {
  }

  /** Three stripped fields without `|`: the token sits between the second
      and the third. */
  lemma AssembleThree(a: string, b: string, c: string, token: string)
    requires Stripped(a) && Stripped(b) && Stripped(c)
    requires Delimiter !in a && Delimiter !in b && Delimiter !in c
    ensures Assemble(a + [Delimiter] + b + [Delimiter] + c, token) == Header + Terminated([a, b, token, c]) + Sentinel
  {
    JoinThree(a, b, c);
    ThreeStrippedFields(a, b, c);
    AssembleStrippedFields([a, b, c], token);
    WithDateThree(a, b, c, token);
  }

  lemma ThreeStrippedFields(a: string, b: string, c: string)
    requires Stripped(a) && Stripped(b) && Stripped(c)
    requires Delimiter !in a && Delimiter !in b && Delimiter !in c
    ensures NoDelimiter([a, b, c])
    ensures forall i :: 0 <= i < |[a, b, c]| ==> Stripped([a, b, c][i])
  {
  }

  lemma WithDateThree(a: string, b: string, c: string, token: string)
    ensures WithDate([a, b, c], token) == [a, b, token, c]
  {
  }

  lemma JoinThree(a: string, b: string, c: string)
    ensures Join([a, b, c], Delimiter) == a + [Delimiter] + b + [Delimiter] + c
  {
    assert [a, b, c][1..] == [b, c] && [b, c][1..] == [c];
    assert Join([b, c], Delimiter) == b + [Delimiter] + c;
  }

  lemma TerminatedFour(a: string, b: string, c: string, e: string)
    ensures Terminated([a, b, c, e])
         == a + [Delimiter] + b + [Delimiter] + c + [Delimiter] + e + [Delimiter]
  {
    assert [a, b, c, e][1..] == [b, c, e] && [b, c, e][1..] == [c, e] && [c, e][1..] == [e];
    assert Terminated([e]) == e + [Delimiter];
    assert Terminated([c, e]) == c + [Delimiter] + e + [Delimiter];
    assert Terminated([b, c, e]) == b + [Delimiter] + c + [Delimiter] + e + [Delimiter];
  }

  lemma ThreeFieldText(a: string, b: string, t: string, c: string)
    ensures Header + Terminated([a, b, t, c]) + Sentinel == "ROG|" + a + "|" + b + "|" + t + "|" + c + "|%%%"
  {
    TerminatedFour(a, b, t, c);
  }

  /** Three fields already stripped: the token lands between the second and
      the third. With the fields `ID001`, `NAME`, `EXTRA` and 5 July 2024
      (`DateTokenExample`) this is `ROG|ID001|NAME|5JUL24|EXTRA|%%%`; with
      an empty middle field, `ROG|a||<token>|c|%%%`. */
  lemma ThreeFieldFrame(a: string, b: string, c: string, token: string)
    requires Stripped(a) && Stripped(b) && Stripped(c)
    requires Delimiter !in a && Delimiter !in b && Delimiter !in c
    ensures Assemble(a + "|" + b + "|" + c, token) == "ROG|" + a + "|" + b + "|" + token + "|" + c + "|%%%"
  {
    AssembleThree(a, b, c, token);
    ThreeFieldText(a, b, token, c);
  }

  /** The record `ID001|NAME|EXTRA` on 5 July 2024: the token lands between
      the second and the third field. */
  lemma WorkedExample()
    ensures FormatFrame("ID001|NAME|EXTRA", Date(2024, 7, 5)) == "ROG|ID001|NAME|5JUL24|EXTRA|%%%"
  {
    ExampleFields();
    ExampleRecord();
    DateTokenExample();
    FormatFrameUnfold("ID001|NAME|EXTRA", Date(2024, 7, 5));
    ThreeFieldFrame("ID001", "NAME", "EXTRA", "5JUL24");
    ExampleFrame();
  }

  lemma ExampleFields()
    ensures Stripped("ID001") && Stripped("NAME") && Stripped("EXTRA")
    ensures Delimiter !in "ID001" && Delimiter !in "NAME" && Delimiter !in "EXTRA"
  {
  }

  lemma ExampleRecord()
    ensures "ID001" + "|" + "NAME" + "|" + "EXTRA" == "ID001|NAME|EXTRA"
  {
  }

  lemma ExampleFrame()
    ensures "ROG|" + "ID001" + "|" + "NAME" + "|" + "5JUL24" + "|" + "EXTRA" + "|%%%"
         == "ROG|ID001|NAME|5JUL24|EXTRA|%%%"
  {
  }
}
