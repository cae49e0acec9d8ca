// expand_tool_args of src/delta.c: the command line of a delta tool with its file names filled in, in two passes.
module Templates {
  import opened Common

  const OFA := "{o}"
  const NFA := "{n}"
  const PFA := "{p}"

  // ----- finding a marker -----

  function ToLower(c: char): char {
    if 'A' <= c <= 'Z' then 'a' + (c - 'A') else c
  }

  // marker is a prefix of s, but for the case of letters.
  predicate StartsWith(s: string, marker: string) {
    |marker| <= |s| && forall k :: 0 <= k < |marker| ==> ToLower(s[k]) == ToLower(marker[k])
  }

  // The number of markers in s.
  function Count(s: string, marker: string): nat {
    if s == "" then 0 else Count(s[1..], marker) + if StartsWith(s, marker) then 1 else 0
  }

  predicate IsMarker(m: string) {
    m == OFA || m == NFA || m == PFA
  }

  // After its first character a marker has no '{', so markers do not overlap.
  lemma NoOverlap(s: string, m: string, n: string)
    requires IsMarker(m) && IsMarker(n) && StartsWith(s, m)
    ensures |s| >= 3 && !StartsWith(s[1..], n) && !StartsWith(s[2..], n) && (StartsWith(s, n) ==> m == n)
  {
    assert s[1..][0] == s[1] && s[2..][0] == s[2];
  }

  lemma CountMarker(s: string, m: string, n: string)
    requires IsMarker(m) && IsMarker(n) && StartsWith(s, m)
    ensures |s| >= 3 && Count(s, n) == Count(s[3..], n) + if m == n then 1 else 0
  {
    NoOverlap(s, m, n);
    assert s[1..][1..] == s[2..] && s[2..][1..] == s[3..];
    assert Count(s[2..], n) == Count(s[3..], n);
    assert Count(s[1..], n) == Count(s[2..], n);
    assert StartsWith(s, n) <==> m == n;
  }

  lemma CountSkip(s: string, p: nat, marker: string)
    requires p < |s| && !StartsWith(s[p..], marker)
    ensures Count(s[p..], marker) == Count(s[p + 1..], marker)
  {
    assert s[p..][1..] == s[p + 1..];
  }

  // strcasestr: the first marker at position from or later.
  method StrCaseStr(s: string, from: nat, marker: string) returns (p: int)
    requires from <= |s| && IsMarker(marker)
    ensures p < 0 ==> Count(s[from..], marker) == 0
    ensures p >= 0 ==> from <= p && p + 3 <= |s| && Count(s[from..], marker) == 1 + Count(s[p + 3..], marker)
  {
    p := from;
    while p < |s| && !StartsWith(s[p..], marker)
      invariant from <= p <= |s|
      invariant Count(s[from..], marker) == Count(s[p..], marker)
    {
      CountSkip(s, p, marker);
      p := p + 1;
    }
    if p == |s| {
      p := -1;
    } else {
      CountMarker(s[p..], marker, marker);
      assert s[p..][3..] == s[p + 3..];
    }
  }

  // __substrcnt
  method SubstrCnt(s: string, marker: string) returns (r: nat)
    requires IsMarker(marker)
    ensures r == Count(s, marker)
  {
    r := 0;
    var p := 0;
    assert s[0..] == s;
    while true
      invariant 0 <= p <= |s| && r + Count(s[p..], marker) == Count(s, marker)
      decreases |s| - p
    {
      var q := StrCaseStr(s, p, marker);
      if q < 0 {
        return;
      }
      p, r := q + 3, r + 1;
    }
  }

  // ----- the expansion -----

  // The three file names; an absent one leaves its marker.
  datatype Files = Files(old_: Option<string>, new_: Option<string>, diff: Option<string>)

  // The name that replaces the marker at the start of s.
  function Replacement(f: Files, s: string): Option<string> {
    if f.old_.Some? && StartsWith(s, OFA) then f.old_
    else if f.new_.Some? && StartsWith(s, NFA) then f.new_
    else if f.diff.Some? && StartsWith(s, PFA) then f.diff
    else None
  }

  lemma ReplacementFits(f: Files, s: string)
    ensures Replacement(f, s).Some? ==> |s| >= 3
  {
  }

  // All markers of s replaced at once.
  function Expand(f: Files, s: string): string {
    if s == "" then ""
    else
      ReplacementFits(f, s);
      if Replacement(f, s).Some? then Replacement(f, s).value + Expand(f, s[3..]) else [s[0]] + Expand(f, s[1..])
  }

  // What the names change of the length.
  function Growth(name: Option<string>, s: string, marker: string): int {
    if name.Some? then Count(s, marker) * (|name.value| - 3) else 0
  }

  function SizeFor(f: Files, s: string): int {
    |s| + Growth(f.old_, s, OFA) + Growth(f.new_, s, NFA) + Growth(f.diff, s, PFA)
  }

  lemma Distribute(c: int, n: int, d: int)
    ensures (c + n) * d == c * d + n * d
  {
  }

  lemma GrowthStep(name: Option<string>, s: string, marker: string, rest: string, n: nat)
    requires Count(s, marker) == Count(rest, marker) + n && n <= 1
    ensures Growth(name, s, marker) == Growth(name, rest, marker) + if name.Some? then n * (|name.value| - 3) else 0
  {
    if name.Some? {
      Distribute(Count(rest, marker), n, |name.value| - 3);
    }
  }

  // The counting pass is exact.
  lemma {:induction false} SizeIsExact(f: Files, s: string)
    ensures |Expand(f, s)| == SizeFor(f, s)
    decreases |s|
  {
    if s != "" {
      ReplacementFits(f, s);
      if Replacement(f, s).Some? {
        var m := if f.old_.Some? && StartsWith(s, OFA) then OFA
                 else if f.new_.Some? && StartsWith(s, NFA) then NFA else PFA;
        var rest := s[3..];
        CountMarker(s, m, OFA);
        CountMarker(s, m, NFA);
        CountMarker(s, m, PFA);
        GrowthStep(f.old_, s, OFA, rest, if m == OFA then 1 else 0);
        GrowthStep(f.new_, s, NFA, rest, if m == NFA then 1 else 0);
        GrowthStep(f.diff, s, PFA, rest, if m == PFA then 1 else 0);
        SizeIsExact(f, rest);
      } else {
        var rest := s[1..];
        GrowthStep(f.old_, s, OFA, rest, if StartsWith(s, OFA) then 1 else 0);
        GrowthStep(f.new_, s, NFA, rest, if StartsWith(s, NFA) then 1 else 0);
        GrowthStep(f.diff, s, PFA, rest, if StartsWith(s, PFA) then 1 else 0);
        SizeIsExact(f, rest);
      }
    }
  }

  // ----- the filling pass -----

  // strcpy of a name into the buffer, without its terminator.
  method CopyName(res: array<char>, i: nat, name: string)
    requires i + |name| <= res.Length
    modifies res
    ensures res[..i + |name|] == old(res[..i]) + name
  {
    for k := 0 to |name|
      invariant res[..i + k] == old(res[..i]) + name[..k]
    {
      res[i + k] := name[k];
    }
    assert name[..|name|] == name;
  }

  // expand_tool_args: the buffer is exactly filled.
  method ExpandToolArgs(f: Files, args: string) returns (res: array<char>)
    ensures fresh(res) && res[..] == Expand(f, args) + [0 as char]
  {
    SizeIsExact(f, args);
    var size := |args| + 1;
    if f.old_.Some? {
      var n := SubstrCnt(args, OFA);
      size := size + n * (|f.old_.value| - |OFA|);
    }
    if f.new_.Some? {
      var n := SubstrCnt(args, NFA);
      size := size + n * (|f.new_.value| - |NFA|);
    }
    if f.diff.Some? {
      var n := SubstrCnt(args, PFA);
      size := size + n * (|f.diff.value| - |PFA|);
    }
    res := new char[size];
    Fill(f, args, res);
  }

  lemma ExpandStep(f: Files, args: string, s: nat)
    requires s < |args|
    ensures var rp := Replacement(f, args[s..]);
            if rp.Some? then s + 3 <= |args| && Expand(f, args[s..]) == rp.value + Expand(f, args[s + 3..])
            else Expand(f, args[s..]) == [args[s]] + Expand(f, args[s + 1..])
  {
    ReplacementFits(f, args[s..]);
    if Replacement(f, args[s..]).Some? {
      assert args[s..][3..] == args[s + 3..];
    } else {
      assert args[s..][1..] == args[s + 1..];
    }
  }

  // One round of the filling loop.
  method FillOne(f: Files, args: string, s0: nat, res: array<char>, i0: nat) returns (s: nat, i: nat)
    requires s0 < |args| && i0 + |Expand(f, args[s0..])| < res.Length
    modifies res
    ensures s0 < s <= |args| && i + |Expand(f, args[s..])| < res.Length
    ensures i + |Expand(f, args[s..])| == i0 + |Expand(f, args[s0..])|
    ensures res[..i] + Expand(f, args[s..]) == old(res[..i0]) + Expand(f, args[s0..])
  {
    ExpandStep(f, args, s0);
    ghost var done := res[..i0];
    var rp := Replacement(f, args[s0..]);
    if rp.Some? {
      CopyName(res, i0, rp.value);
      i, s := i0 + |rp.value|, s0 + 3;
      assert (done + rp.value) + Expand(f, args[s..]) == done + (rp.value + Expand(f, args[s..]));
    } else {
      res[i0] := args[s0];
      i, s := i0 + 1, s0 + 1;
      assert res[..i] == done + [args[s0]];
      assert (done + [args[s0]]) + Expand(f, args[s..]) == done + ([args[s0]] + Expand(f, args[s..]));
    }
  }

  method Fill(f: Files, args: string, res: array<char>)
    requires res.Length == |Expand(f, args)| + 1
    modifies res
    ensures res[..] == Expand(f, args) + [0 as char]
  {
    var s, i := 0, 0;
    assert args[0..] == args;
    while s < |args|
      invariant 0 <= s <= |args| && 0 <= i && i + |Expand(f, args[s..])| == |Expand(f, args)|
      invariant res[..i] + Expand(f, args[s..]) == Expand(f, args)
    {
      s, i := FillOne(f, args, s, res, i);
    }
    assert args[s..] == "" && Expand(f, "") == "";
    assert res[..i] == Expand(f, args);
    res[i] := 0 as char;
    assert res[..] == res[..i] + [res[i]];
  }

  // ----- what the expansion means -----

  // A template as its author reads it: markers for the names that are given, and single characters.
  datatype Piece = Name(kind: nat, marker: string) | Letter(c: char)

  function NameOf(f: Files, kind: nat): Option<string> {
    if kind == 0 then f.old_ else if kind == 1 then f.new_ else f.diff
  }

  // The spellings of a marker.
  predicate Spells(kind: nat, marker: string) {
    || (kind == 0 && (marker == "{o}" || marker == "{O}"))
    || (kind == 1 && (marker == "{n}" || marker == "{N}"))
    || (kind == 2 && (marker == "{p}" || marker == "{P}"))
  }

  // The text begins with the marker of a name that is given.
  predicate BeginsGiven(f: Files, s: string) {
    || (f.old_.Some? && ("{o}" <= s || "{O}" <= s))
    || (f.new_.Some? && ("{n}" <= s || "{N}" <= s))
    || (f.diff.Some? && ("{p}" <= s || "{P}" <= s))
  }

  function MarkerOf(kind: nat): string {
    if kind == 0 then OFA else if kind == 1 then NFA else PFA
  }

  // Without regard to case a marker is found exactly in its two spellings.
  lemma LowerIs(c: char)
    ensures (ToLower(c) == ToLower('{') <==> c == '{') && (ToLower(c) == ToLower('}') <==> c == '}')
    ensures (ToLower(c) == ToLower('o') <==> c == 'o' || c == 'O')
    ensures (ToLower(c) == ToLower('n') <==> c == 'n' || c == 'N')
    ensures (ToLower(c) == ToLower('p') <==> c == 'p' || c == 'P')
  {
  }

  lemma PrefixIs(s: string, a: char, b: char, c: char)
    ensures [a, b, c] <= s <==> |s| >= 3 && s[0] == a && s[1] == b && s[2] == c
  {
    if |s| >= 3 && s[0] == a && s[1] == b && s[2] == c {
      assert s[..3] == [a, b, c];
    }
  }

  lemma FoundIsSpelled(s: string, marker: string, c: char, upper: char)
    requires marker == ['{', c, '}']
    requires forall x :: ToLower(x) == ToLower(c) <==> x == c || x == upper
    ensures StartsWith(s, marker) <==> ['{', c, '}'] <= s || ['{', upper, '}'] <= s
  {
    PrefixIs(s, '{', c, '}');
    PrefixIs(s, '{', upper, '}');
    if |s| >= 3 {
      LowerIs(s[0]);
      LowerIs(s[2]);
      assert StartsWith(s, marker) <==> ToLower(s[0]) == ToLower(marker[0]) && ToLower(s[1]) == ToLower(marker[1])
                                        && ToLower(s[2]) == ToLower(marker[2]);
    }
  }

  lemma MarkersFound(s: string)
    ensures StartsWith(s, OFA) <==> "{o}" <= s || "{O}" <= s
    ensures StartsWith(s, NFA) <==> "{n}" <= s || "{N}" <= s
    ensures StartsWith(s, PFA) <==> "{p}" <= s || "{P}" <= s
  {
    forall x {
      LowerIs(x);
    }
    FoundIsSpelled(s, OFA, 'o', 'O');
    FoundIsSpelled(s, NFA, 'n', 'N');
    FoundIsSpelled(s, PFA, 'p', 'P');
  }

  function Text(pieces: seq<Piece>): string {
    if pieces == [] then ""
    else (if pieces[0].Name? then pieces[0].marker else [pieces[0].c]) + Text(pieces[1..])
  }

  // The pieces read the text as it is meant: each name piece spells its marker in any case, and no marker of a given
  // name starts at a letter.
  ghost predicate Reads(f: Files, pieces: seq<Piece>) {
    pieces != [] ==>
      && Reads(f, pieces[1..])
      && match pieces[0]
         case Name(kind, marker) => NameOf(f, kind).Some? && Spells(kind, marker)
         case Letter(_) => !BeginsGiven(f, Text(pieces))
  }

  // Each name piece replaced by its name and each letter kept; what a name contains is not looked at.
  function Substituted(f: Files, pieces: seq<Piece>): string {
    if pieces == [] then ""
    else
      (match pieces[0]
       case Name(kind, _) => if NameOf(f, kind).Some? then NameOf(f, kind).value else ""
       case Letter(c) => [c]) + Substituted(f, pieces[1..])
  }

  lemma MarkerReplaced(f: Files, kind: nat, marker: string, rest: string)
    requires NameOf(f, kind).Some? && Spells(kind, marker)
    ensures Replacement(f, marker + rest) == NameOf(f, kind) && (marker + rest)[3..] == rest
  {
    var s := marker + rest;
    MarkersFound(s);
    assert s[..3] == marker;
    assert StartsWith(s, MarkerOf(kind));
    NoOverlap(s, MarkerOf(kind), OFA);
    NoOverlap(s, MarkerOf(kind), NFA);
  }

  // The expansion is the simultaneous substitution.
  lemma {:induction false} ExpandSubstitutes(f: Files, pieces: seq<Piece>)
    requires Reads(f, pieces)
    ensures Expand(f, Text(pieces)) == Substituted(f, pieces)
    decreases |pieces|
  {
    if pieces != [] {
      var rest := Text(pieces[1..]);
      ExpandSubstitutes(f, pieces[1..]);
      match pieces[0]
      case Name(kind, marker) => MarkerReplaced(f, kind, marker, rest);
      case Letter(c) =>
        MarkersFound(Text(pieces));
        assert Text(pieces)[1..] == rest;
    }
  }

  // The first piece of a text.
  lemma FirstPiece(f: Files, s: string) returns (first: Piece, rest: string)
    requires s != ""
    ensures |rest| < |s| && s == (if first.Name? then first.marker else [first.c]) + rest
    ensures first.Name? ==> NameOf(f, first.kind).Some? && Spells(first.kind, first.marker)
    ensures first.Letter? ==> !BeginsGiven(f, s)
  {
    if BeginsGiven(f, s) {
      var kind := if f.old_.Some? && ("{o}" <= s || "{O}" <= s) then 0
                  else if f.new_.Some? && ("{n}" <= s || "{N}" <= s) then 1 else 2;
      first, rest := Name(kind, s[..3]), s[3..];
    } else {
      first, rest := Letter(s[0]), s[1..];
    }
  }

  // Every text can be read in this way.
  lemma {:induction false} ReadingExists(f: Files, s: string) returns (pieces: seq<Piece>)
    ensures Reads(f, pieces) && Text(pieces) == s
    decreases |s|
  {
    if s == "" {
      pieces := [];
    } else {
      var first, rest := FirstPiece(f, s);
      var tail := ReadingExists(f, rest);
      pieces := [first] + tail;
      assert pieces[1..] == tail;
    }
  }
}
