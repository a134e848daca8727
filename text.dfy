/**
  String helpers of the clicking scraper, with the semantics of the Python
  `str` methods they are built from: `strip()`, `split(sep)[0]`, `replace`,
  `startswith` and `join`.
 */
module Text {

  /** Python's `str.isspace` for one character: the Unicode whitespace set
      that `str.strip()` removes. */
  predicate IsSpace(c: char)
  {
    || ('\t' <= c <= '\r')
    || ('\U{1C}' <= c <= ' ')
    || c == '\U{85}' || c == '\U{A0}' || c == '\U{1680}'
    || ('\U{2000}' <= c <= '\U{200A}')
    || c == '\U{2028}' || c == '\U{2029}' || c == '\U{202F}'
    || c == '\U{205F}' || c == '\U{3000}'
  }

  /** Neither the first nor the last character is whitespace. */
  predicate Stripped(s: string)
  {
    s == [] || (!IsSpace(s[0]) && !IsSpace(s[|s| - 1]))
  }

  /** `s.lstrip()`: the suffix left after dropping leading whitespace. */
  function TrimLeft(s: string): string
    decreases |s|
  {
    if s != [] && IsSpace(s[0]) then TrimLeft(s[1..]) else s
  }

  lemma {:induction false} TrimLeftSpec(s: string)
    ensures |TrimLeft(s)| <= |s| && TrimLeft(s) == s[|s| - |TrimLeft(s)|..]
    ensures TrimLeft(s) == [] || !IsSpace(TrimLeft(s)[0])
    ensures forall i :: 0 <= i < |s| - |TrimLeft(s)| ==> IsSpace(s[i])
    decreases |s|
  {
    if s != [] && IsSpace(s[0]) {
      TrimLeftSpec(s[1..]);
      assert forall i :: 1 <= i < |s| - |TrimLeft(s)| ==> s[i] == s[1..][i - 1];
    }
  }

  /** `s.rstrip()`: the prefix left after dropping trailing whitespace. */
  function TrimRight(s: string): string
    decreases |s|
  {
    if s != [] && IsSpace(s[|s| - 1]) then TrimRight(s[..|s| - 1]) else s
  }

  lemma {:induction false} TrimRightSpec(s: string)
    ensures |TrimRight(s)| <= |s| && TrimRight(s) == s[..|TrimRight(s)|]
    ensures TrimRight(s) == [] || !IsSpace(TrimRight(s)[|TrimRight(s)| - 1])
    ensures forall i :: |TrimRight(s)| <= i < |s| ==> IsSpace(s[i])
    decreases |s|
  {
    if s != [] && IsSpace(s[|s| - 1]) {
      TrimRightSpec(s[..|s| - 1]);
    }
  }

  /** `s.strip()`. */
  function Strip(s: string): string
  {
    TrimRight(TrimLeft(s))
  }

  /** `strip()` yields a slice of its input with whitespace, and only
      whitespace, cut from both ends. */
  lemma StripSlice(s: string) returns (i: nat, j: nat)
    ensures i <= j <= |s| && Strip(s) == s[i..j]
    ensures Stripped(Strip(s))
    ensures forall k :: 0 <= k < i ==> IsSpace(s[k])
    ensures forall k :: j <= k < |s| ==> IsSpace(s[k])
  {
    var l := TrimLeft(s);
    TrimLeftSpec(s);
    TrimRightSpec(l);
    i := |s| - |l|;
    j := i + |TrimRight(l)|;
    assert s[i..j] == l[..|TrimRight(l)|];
    forall k | j <= k < |s| ensures IsSpace(s[k]) {
      assert s[k] == l[k - i];
    }
  }

  /** Every character of `strip()`'s result comes from its input. */
  lemma StripChars(s: string, c: char)
    requires c !in s
    ensures c !in Strip(s)
  {
    var i, j := StripSlice(s);
    assert forall k :: i <= k < j ==> s[k] != c;
  }

  /** `strip()` leaves an already stripped string alone, so it is idempotent. */
  lemma StripFixed(s: string)
    requires Stripped(s)
    ensures Strip(s) == s
  {
  }

  lemma StripIdempotent(s: string)
    ensures Strip(Strip(s)) == Strip(s)
  {
    var _, _ := StripSlice(s);
    StripFixed(Strip(s));
  }

  /** `s.split(c)[0]`: everything before the first `c`, or all of `s`. */
  function CutAt(s: string, c: char): string
    decreases |s|
  {
    if s == [] then []
    else if s[0] == c then []
    else [s[0]] + CutAt(s[1..], c)
  }

  /** The part before the first `c` holds no `c`, is a prefix, and is all
      of `s` exactly when `s` has no `c`. */
  lemma {:induction false} CutAtSpec(s: string, c: char)
    ensures c !in CutAt(s, c)
    ensures |CutAt(s, c)| <= |s| && CutAt(s, c) == s[..|CutAt(s, c)|]
    ensures c in s ==> |CutAt(s, c)| < |s| && s[|CutAt(s, c)|] == c
    ensures c !in s ==> CutAt(s, c) == s
    decreases |s|
  {
    if s != [] && s[0] != c {
      CutAtSpec(s[1..], c);
      assert c in s ==> c in s[1..];
    }
  }

  /** `process_name` as written: cut at the first backslash if there is
      one, otherwise at the first newline, then strip. */
  function ProcessName(name: string): string
  {
    if '\\' in name then Strip(CutAt(name, '\\'))
    else if '\n' in name then Strip(CutAt(name, '\n'))
    else Strip(name)
  }

  /** What `process_name` guarantees: no whitespace at either end, never a
      backslash, and no newline when the input had no backslash. */
  lemma ProcessNameShape(name: string)
    ensures Stripped(ProcessName(name))
    ensures '\\' !in ProcessName(name)
    ensures '\\' !in name ==> '\n' !in ProcessName(name)
  {
    CutAtSpec(name, '\\');
    CutAtSpec(name, '\n');
    if '\\' in name {
      var _, _ := StripSlice(CutAt(name, '\\'));
      StripChars(CutAt(name, '\\'), '\\');
    } else if '\n' in name {
      var _, _ := StripSlice(CutAt(name, '\n'));
      StripChars(CutAt(name, '\n'), '\\');
      StripChars(CutAt(name, '\n'), '\n');
    } else {
      var _, _ := StripSlice(name);
      StripChars(name, '\\');
      StripChars(name, '\n');
    }
  }

  /** `process_name` is idempotent exactly when its result holds no
      newline: a newline that precedes the first backslash survives the
      first pass and is cut by the second. */
  lemma ProcessNameIdempotentIff(name: string)
    ensures ProcessName(ProcessName(name)) == ProcessName(name)
            <==> '\n' !in ProcessName(name)
  {
    var r := ProcessName(name);
    ProcessNameShape(name);
    if '\n' in r {
      CutAtSpec(r, '\n');
      var _, _ := StripSlice(CutAt(r, '\n'));
      var k := |CutAt(r, '\n')|;
      assert |Strip(CutAt(r, '\n'))| <= k < |r|;
    } else {
      StripFixed(r);
    }
  }

  /** The input that exhibits it: the newline before the backslash stays. */
  lemma ProcessNameKeepsNewline()
    ensures ProcessName("A\nB\\C") == "A\nB"
    ensures ProcessName(ProcessName("A\nB\\C")) == "A"
  {
    var s := "A\nB\\C";
    assert CutAt(s, '\\') == "A\nB" by {
      assert s[0] == 'A' && s[1] == '\n' && s[2] == 'B' && s[3] == '\\';
      assert CutAt(s[3..], '\\') == [];
      assert CutAt(s[2..], '\\') == "B";
      assert CutAt(s[1..], '\\') == "\nB";
    }
    StripFixed("A\nB");
    assert CutAt("A\nB", '\n') == "A" by {
      assert "A\nB"[1..][0] == '\n';
    }
    StripFixed("A");
  }

  /** The name cleanup the docstring describes: cut at the first backslash
      or newline, whichever comes first, then strip. */
  function CleanName(name: string): string
  {
    Strip(CutAt(CutAt(name, '\\'), '\n'))
  }

  lemma CleanNameShape(name: string)
    ensures Stripped(CleanName(name))
    ensures '\\' !in CleanName(name) && '\n' !in CleanName(name)
  {
    var q := CutAt(CutAt(name, '\\'), '\n');
    CutAtSpec(name, '\\');
    CutAtSpec(CutAt(name, '\\'), '\n');
    assert '\\' !in q;
    var _, _ := StripSlice(q);
    StripChars(q, '\\');
    StripChars(q, '\n');
  }

  lemma CleanNameIdempotent(name: string)
    ensures CleanName(CleanName(name)) == CleanName(name)
  {
    var r := CleanName(name);
    CleanNameShape(name);
    CutAtSpec(r, '\\');
    CutAtSpec(r, '\n');
    StripFixed(r);
  }

  /** `CleanName` differs from `process_name` only when a newline comes
      before the first backslash. */
  lemma CleanNameAgrees(name: string)
    requires '\\' !in name || '\n' !in CutAt(name, '\\')
    ensures CleanName(name) == ProcessName(name)
  {
    CutAtSpec(name, '\\');
    CutAtSpec(name, '\n');
    CutAtSpec(CutAt(name, '\\'), '\n');
  }

  /** `s.startswith(p)`. */
  predicate StartsWith(s: string, p: string)
  {
    |p| <= |s| && s[..|p|] == p
  }

  /** The phone normalisation: drop a leading `tel:` from a non-empty href. */
  function StripTelPrefix(phone: string): string
  {
    if phone != "" && StartsWith(phone, "tel:") then phone[4..] else phone
  }

  /** Exactly the four characters of `tel:` go, and nothing else changes. */
  lemma StripTelPrefixSpec(phone: string)
    ensures StartsWith(phone, "tel:") ==> "tel:" + StripTelPrefix(phone) == phone
    ensures !StartsWith(phone, "tel:") ==> StripTelPrefix(phone) == phone
  {
  }

  lemma StripTelPrefixInverse(number: string)
    ensures StripTelPrefix("tel:" + number) == number
  {
    assert StartsWith("tel:" + number, "tel:");
  }

  /** `pat` occurs in `s` at position `i`. */
  predicate OccursAt(s: string, pat: string, i: int)
  {
    0 <= i && i + |pat| <= |s| && s[i..i + |pat|] == pat
  }

  /** `pat` occurs somewhere in `s`. */
  predicate Occurs(s: string, pat: string)
  {
    exists i :: 0 <= i <= |s| && OccursAt(s, pat, i)
  }

  /** `s.replace(pat, rep)`: non-overlapping occurrences, left to right. */
  function ReplaceAll(s: string, pat: string, rep: string): string
    requires pat != []
    decreases |s|
  {
    if |s| < |pat| then s
    else if s[..|pat|] == pat then rep + ReplaceAll(s[|pat|..], pat, rep)
    else [s[0]] + ReplaceAll(s[1..], pat, rep)
  }

  /** Without an occurrence of the pattern, `replace` is the identity. */
  lemma {:induction false} ReplaceAbsent(s: string, pat: string, rep: string)
    requires pat != [] && !Occurs(s, pat)
    ensures ReplaceAll(s, pat, rep) == s
    decreases |s|
  {
    if |s| >= |pat| {
      assert !OccursAt(s, pat, 0);
      assert s[..|pat|] != pat;
      if Occurs(s[1..], pat) {
        var i :| 0 <= i <= |s[1..]| && OccursAt(s[1..], pat, i);
        assert s[1..][i..i + |pat|] == s[i + 1..i + 1 + |pat|];
        assert OccursAt(s, pat, i + 1);
        assert false;
      }
      ReplaceAbsent(s[1..], pat, rep);
    }
  }

  /** Replacing one character by another acts position by position. */
  lemma {:induction false} ReplaceChar(s: string, a: char, b: char)
    ensures |ReplaceAll(s, [a], [b])| == |s|
    ensures forall i :: 0 <= i < |s| ==>
              ReplaceAll(s, [a], [b])[i] == if s[i] == a then b else s[i]
    decreases |s|
  {
    if s != [] {
      assert s[..1] == [a] <==> s[0] == a;
      ReplaceChar(s[1..], a, b);
    }
  }

  /** Replacing a single character works piece by piece. */
  lemma {:induction false} ReplaceCharAppend(s: string, t: string, c: char, rep: string)
    ensures ReplaceAll(s + t, [c], rep) == ReplaceAll(s, [c], rep) + ReplaceAll(t, [c], rep)
    decreases |s|
  {
    if s == [] {
      assert s + t == t;
    } else {
      assert (s + t)[..1] == s[..1];
      assert (s + t)[1..] == s[1..] + t;
      ReplaceCharAppend(s[1..], t, c, rep);
      if s[..1] == [c] {
        assert ReplaceAll(s + t, [c], rep) == rep + ReplaceAll(s[1..] + t, [c], rep);
      } else {
        assert ReplaceAll(s + t, [c], rep) == [s[0]] + ReplaceAll(s[1..] + t, [c], rep);
      }
    }
  }

  /** A text without the character is left alone. */
  lemma {:induction false} ReplaceCharAbsent(s: string, c: char, rep: string)
    requires c !in s
    ensures ReplaceAll(s, [c], rep) == s
    decreases |s|
  {
    if s != [] {
      assert s[..1] != [c] by {
        assert s[..1][0] == s[0];
      }
      ReplaceCharAbsent(s[1..], c, rep);
    }
  }

  /** The number of occurrences of `c` in `s`. */
  function Count(c: char, s: string): nat
    decreases |s|
  {
    if s == [] then 0 else (if s[0] == c then 1 else 0) + Count(c, s[1..])
  }

  lemma {:induction false} CountAppend(c: char, a: string, b: string)
    ensures Count(c, a + b) == Count(c, a) + Count(c, b)
    decreases |a|
  {
    if a != [] {
      assert (a + b)[0] == a[0];
      assert (a + b)[1..] == a[1..] + b;
      assert Count(c, a + b) == (if a[0] == c then 1 else 0) + Count(c, a[1..] + b);
      CountAppend(c, a[1..], b);
    } else {
      assert a + b == b;
    }
  }

  lemma {:induction false} CountAbsent(c: char, s: string)
    requires c !in s
    ensures Count(c, s) == 0
    decreases |s|
  {
    if s != [] {
      CountAbsent(c, s[1..]);
    }
  }

  /** Replacing a single character by a string without it removes every
      occurrence, and each one adds `|rep| - 1` characters. */
  lemma {:induction false} ReplaceCharGone(s: string, c: char, rep: string)
    requires c !in rep
    ensures c !in ReplaceAll(s, [c], rep)
    ensures |ReplaceAll(s, [c], rep)| == |s| + Count(c, s) * (|rep| - 1)
    decreases |s|
  {
    if s != [] {
      var r := ReplaceAll(s[1..], [c], rep);
      ReplaceCharGone(s[1..], c, rep);
      var k := Count(c, s[1..]);
      var d := |rep| - 1;
      if s[0] == c {
        assert s[..1] == [c];
        assert ReplaceAll(s, [c], rep) == rep + r;
        assert Count(c, s) == 1 + k;
        assert (1 + k) * d == d + k * d;
      } else {
        assert s[..1] != [c];
        assert ReplaceAll(s, [c], rep) == [s[0]] + r;
        assert Count(c, s) == k;
      }
    }
  }

  /** The label that `process_place_from_location` removes. */
  const PlaceLabel: string := "Piscine à "

  /** `process_place_from_location`. */
  function ProcessPlace(location: string): string
  {
    Strip(ReplaceAll(location, PlaceLabel, ""))
  }

  /** A location without the label is only stripped. */
  lemma ProcessPlaceWithoutLabel(location: string)
    requires !Occurs(location, PlaceLabel)
    ensures ProcessPlace(location) == Strip(location)
  {
    ReplaceAbsent(location, PlaceLabel, "");
  }

  /** A leading label is dropped and what follows is processed as before. */
  lemma ProcessPlaceLeadingLabel(rest: string)
    ensures ProcessPlace(PlaceLabel + rest) == ProcessPlace(rest)
  {
    var s := PlaceLabel + rest;
    assert s[..|PlaceLabel|] == PlaceLabel;
    assert s[|PlaceLabel|..] == rest;
    assert ReplaceAll(s, PlaceLabel, "") == "" + ReplaceAll(rest, PlaceLabel, "");
    assert "" + ReplaceAll(rest, PlaceLabel, "") == ReplaceAll(rest, PlaceLabel, "");
  }

  /** `sep.join(items)`. */
  function Join(sep: string, items: seq<string>): string
    decreases |items|
  {
    if items == [] then ""
    else if |items| == 1 then items[0]
    else items[0] + sep + Join(sep, items[1..])
  }

  /** The web field's separator: links without a slash of their own give a
      joined text with exactly one slash per gap between links. */
  lemma {:induction false} JoinSeparators(items: seq<string>)
    requires forall i :: 0 <= i < |items| ==> '/' !in items[i]
    ensures Count('/', Join(" / ", items)) == if items == [] then 0 else |items| - 1
    decreases |items|
  {
    if |items| == 1 {
      CountAbsent('/', items[0]);
    } else if |items| > 1 {
      JoinSeparators(items[1..]);
      CountAbsent('/', items[0]);
      CountAppend('/', items[0] + " / ", Join(" / ", items[1..]));
      CountAppend('/', items[0], " / ");
      assert Count('/', " / ") == 1;
    }
  }

  /** `s.split(c)`: the pieces between the occurrences of `c`, in order;
      always at least one piece. */
  function SplitAt(s: string, c: char): (r: seq<string>)
    ensures |r| >= 1
    decreases |s|
  {
    if c !in s then [s]
    else
      CutAtSpec(s, c);
      [CutAt(s, c)] + SplitAt(s[|CutAt(s, c)| + 1..], c)
  }

  /** Cutting a text at its first `c`: the part before it, the `c`, and
      the rest are replaced independently. */
  lemma ReplaceCharSplit(a: string, b: string, c: char, rep: string)
    requires c !in a
    ensures ReplaceAll(a + [c] + b, [c], rep) == a + rep + ReplaceAll(b, [c], rep)
  {
    ReplaceCharAppend(a + [c], b, c, rep);
    ReplaceCharAppend(a, [c], c, rep);
    ReplaceCharAbsent(a, c, rep);
    assert [c][..1] == [c] && [c][1..] == [];
    assert ReplaceAll([c], [c], rep) == rep + ReplaceAll([], [c], rep);
  }

  /** `s.replace(c, rep)` for a single character `c` is
      `rep.join(s.split(c))`: each occurrence of `c` becomes `rep` and the
      text between occurrences is kept as it is. */
  lemma {:induction false} ReplaceCharIsJoin(s: string, c: char, rep: string)
    ensures ReplaceAll(s, [c], rep) == Join(rep, SplitAt(s, c))
    decreases |s|
  {
    if c !in s {
      ReplaceCharAbsent(s, c, rep);
    } else {
      CutAtSpec(s, c);
      var a := CutAt(s, c);
      var b := s[|a| + 1..];
      assert s == a + [c] + b;
      ReplaceCharSplit(a, b, c, rep);
      ReplaceCharIsJoin(b, c, rep);
      var pieces := SplitAt(b, c);
      assert SplitAt(s, c) == [a] + pieces;
      assert ([a] + pieces)[1..] == pieces;
      assert Join(rep, [a] + pieces) == a + rep + Join(rep, pieces);
    }
  }
}
