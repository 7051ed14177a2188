/** Sequential string utilities: replace-all, delimiter split, whitespace trim,
    ASCII case mapping and a case-insensitive comparison. A `std::string` is a
    `seq<char>`; a string the source changes in place and whose length may change is
    passed in and its new value returned. */
module StringUtils {

  datatype Option<T> = None | Some(value: T)

  /** `size_t(-1)`, the "not found" position of the standard string searches. */
  const NPOS: nat := 0xFFFF_FFFF_FFFF_FFFF
  /** Number of distinct `size_t` values; `size_t` arithmetic wraps modulo this. */
  const SIZE_MODULUS: nat := 0x1_0000_0000_0000_0000

  /** `n + 1` in `size_t` arithmetic: `npos + 1` wraps around to 0. */
  function SizeIncrement(n: nat): (r: nat)
    requires n <= NPOS
    ensures r == (n + 1) % SIZE_MODULUS
  {
    if n == NPOS then 0 else n + 1
  }

  function Shift(o: Option<nat>, n: nat): Option<nat>
  {
    match o
    case None => None
    case Some(v) => Some(v + n)
  }

  function Min(a: nat, b: nat): nat
  {
    if a <= b then a else b
  }

  // ---------------------------------------------------------------------------
  // Searching

  /** `m` occurs in `s` starting at position `p`. */
  predicate IsMatchAt(s: string, m: string, p: nat)
  {
    p + |m| <= |s| && s[p..p + |m|] == m
  }

  /** `s.find(m, from)`: the first occurrence of `m` at or after `from`. */
  function Find(s: string, m: string, from: nat): (r: Option<nat>)
    decreases |s| - from
    ensures r.Some? ==> from <= r.value && IsMatchAt(s, m, r.value)
  {
    if from + |m| > |s| then None
    else if s[from..from + |m|] == m then Some(from)
    else Find(s, m, from + 1)
  }

  /** Find returns the first occurrence: there is none before the one it returns, and
      none at all at or after `from` when it returns nothing. */
  lemma {:induction false} FindIsFirst(s: string, m: string, from: nat)
    decreases |s| - from
    ensures Find(s, m, from).Some? ==>
              forall q :: from <= q < Find(s, m, from).value ==> !IsMatchAt(s, m, q)
    ensures Find(s, m, from).None? ==> forall q :: from <= q ==> !IsMatchAt(s, m, q)
  {
    if from + |m| <= |s| && s[from..from + |m|] != m {
      FindIsFirst(s, m, from + 1);
    }
  }

  /** Searching past a prefix `a` of `a + b` is searching `b`, shifted by `|a|`. */
  lemma {:induction false} FindPastPrefix(a: string, b: string, m: string, i: nat)
    ensures Find(a + b, m, |a| + i) == Shift(Find(b, m, i), |a|)
    decreases |b| - i
  {
    if |a| + i + |m| <= |a + b| {
      assert (a + b)[|a| + i..|a| + i + |m|] == b[i..i + |m|];
      if b[i..i + |m|] != m {
        FindPastPrefix(a, b, m, i + 1);
      }
    }
  }

  // ---------------------------------------------------------------------------
  // ReplaceAll

  /** The string with every occurrence of `m` replaced by `r`, scanning left to right
      and resuming after each inserted replacement. */
  function Replaced(s: string, m: string, r: string): string
    requires |m| > 0
    decreases |s|
  {
    match Find(s, m, 0)
    case None => s
    case Some(p) => s[..p] + r + Replaced(s[p + |m|..], m, r)
  }

  /** The pieces of `s` between the occurrences of `m` that ReplaceAll replaces. */
  function MatchPieces(s: string, m: string): (ps: seq<string>)
    requires |m| > 0
    decreases |s|
    ensures |ps| > 0
  {
    match Find(s, m, 0)
    case None => [s]
    case Some(p) => [s[..p]] + MatchPieces(s[p + |m|..], m)
  }

  /** The pieces joined with `sep` between consecutive ones. */
  function Join(ps: seq<string>, sep: string): string
    requires |ps| > 0
  {
    if |ps| == 1 then ps[0] else ps[0] + sep + Join(ps[1..], sep)
  }

  /** Replacing puts `r` between the pieces that lie between the matches. */
  lemma {:induction false} ReplacedJoinsPieces(s: string, m: string, r: string)
    requires |m| > 0
    ensures Replaced(s, m, r) == Join(MatchPieces(s, m), r)
    decreases |s|
  {
    match Find(s, m, 0)
    case None =>
    case Some(p) =>
      var rest := s[p + |m|..];
      ReplacedJoinsPieces(rest, m, r);
      assert MatchPieces(s, m) == [s[..p]] + MatchPieces(rest, m);
      assert ([s[..p]] + MatchPieces(rest, m))[1..] == MatchPieces(rest, m);
  }

  /** Joining the pieces with `m` itself gives back the input. */
  lemma {:induction false} PiecesRejoin(s: string, m: string)
    requires |m| > 0
    ensures Join(MatchPieces(s, m), m) == s
    decreases |s|
  {
    match Find(s, m, 0)
    case None =>
    case Some(p) =>
      var rest := s[p + |m|..];
      var ps := [s[..p]] + MatchPieces(rest, m);
      PiecesRejoin(rest, m);
      assert MatchPieces(s, m) == ps;
      assert ps[1..] == MatchPieces(rest, m);
      assert Join(ps, m) == s[..p] + m + Join(MatchPieces(rest, m), m);
      assert IsMatchAt(s, m, p);
      assert s == s[..p] + m + rest;
  }

  /** No piece contains an occurrence of `m`. */
  lemma {:induction false} PiecesFreeOfMatch(s: string, m: string)
    requires |m| > 0
    ensures forall i, q :: 0 <= i < |MatchPieces(s, m)| ==> !IsMatchAt(MatchPieces(s, m)[i], m, q)
    decreases |s|
  {
    FindIsFirst(s, m, 0);
    match Find(s, m, 0)
    case None =>
    case Some(p) =>
      var rest := s[p + |m|..];
      PiecesFreeOfMatch(rest, m);
      forall q: nat | IsMatchAt(s[..p], m, q)
        ensures false
      {
        assert s[..p][q..q + |m|] == s[q..q + |m|];
        assert IsMatchAt(s, m, q);
      }
  }

  /** Replacing `m` by itself changes nothing. */
  lemma {:induction false} ReplacedBySelf(s: string, m: string)
    requires |m| > 0
    ensures Replaced(s, m, m) == s
  {
    ReplacedJoinsPieces(s, m, m);
    PiecesRejoin(s, m);
  }

  /** The inserted replacement is never scanned again: a string that is exactly one
      match becomes exactly the replacement, even when the replacement contains the
      match. */
  lemma {:induction false} ReplacementNotRescanned(m: string, r: string)
    requires |m| > 0
    ensures Replaced(m, m, r) == r
  {
    assert m[0..|m|] == m;
    assert Find(m, m, 0) == Some(0);
    assert m[|m|..] == [];
    assert Find([], m, 0) == None;
  }

  /** Searching `s` from `j` is searching its suffix `s[j..]` from the start. */
  lemma {:induction false} FindInSuffix(s: string, m: string, j: nat)
    requires j <= |s|
    ensures Find(s, m, j) == Shift(Find(s[j..], m, 0), j)
  {
    assert s[..j] + s[j..] == s;
    FindPastPrefix(s[..j], s[j..], m, 0);
  }

  /** Replaced, unfolded once at the first match `q`, with the text `before` the match
      and the text `after` it. */
  lemma {:induction false} ReplacedAtMatch(s: string, m: string, r: string, q: nat,
                                           before: string, after: string)
    requires |m| > 0 && Find(s, m, 0) == Some(q)
    requires before == s[..q] && after == s[q + |m|..]
    ensures Replaced(s, m, r) == before + r + Replaced(after, m, r)
  {
  }

  /** Where `m` does not occur, Replaced changes nothing. */
  lemma {:induction false} ReplacedWithoutMatch(s: string, m: string, r: string)
    requires |m| > 0 && Find(s, m, 0) == None
    ensures Replaced(s, m, r) == s
  {
  }

  /** The ReplaceAll loop at its head: everything before `j` is final, and replacing
      in the rest gives the full result. */
  ghost predicate ReplacedFrom(str: string, m: string, r: string, result: string, j: nat)
    requires |m| > 0
  {
    j <= |result| && result[..j] + Replaced(result[j..], m, r) == Replaced(str, m, r)
  }

  /** Before the first round nothing is final. */
  lemma {:induction false} ReplaceStart(str: string, m: string, r: string)
    requires |m| > 0
    ensures ReplacedFrom(str, m, r, str, 0)
  {
    assert str[..0] + str[0..] == str;
  }

  /** One round splices `r` over the match at `p` and makes everything up to the end
      of the inserted replacement final; the replacement is not searched again. */
  lemma {:induction false} ReplaceStep(str: string, m: string, r: string, result: string,
                                       j: nat, p: nat)
    requires |m| > 0 && ReplacedFrom(str, m, r, result, j)
    requires Find(result, m, j) == Some(p)
    ensures p + |m| <= |result|
    ensures ReplacedFrom(str, m, r, result[..p] + r + result[p + |m|..], p + |r|)
  {
    ReplacedFromMatch(result, m, r, j, p);
    SpliceParts(result, j, p, |m|, r);
    var tail := Replaced(result[p + |m|..], m, r);
    Associate(result[..j], result[j..p], r);
    Associate(result[..j], result[j..p] + r, tail);
    Associate(result[j..p], r, tail);
  }

  /** Replacing in `s[j..]` when the next match at or after `j` is at `p`: the text
      from `j` to the match is kept, then comes `r`, then the rest after the match. */
  lemma {:induction false} ReplacedFromMatch(s: string, m: string, r: string, j: nat, p: nat)
    requires |m| > 0 && j <= |s| && Find(s, m, j) == Some(p)
    ensures j <= p && p + |m| <= |s|
    ensures Replaced(s[j..], m, r) == s[j..p] + r + Replaced(s[p + |m|..], m, r)
  {
    FindInSuffix(s, m, j);
    SuffixSlices(s, j, p, |m|);
    ReplacedAtMatch(s[j..], m, r, p - j, s[j..p], s[p + |m|..]);
  }

  /** Slices of the suffix `s[j..]` are slices of `s`. */
  lemma {:induction false} SuffixSlices(s: string, j: nat, p: nat, n: nat)
    requires j <= p && p + n <= |s|
    ensures s[j..][..p - j] == s[j..p]
    ensures s[j..][p - j + n..] == s[p + n..]
  {
  }

  /** Concatenation regrouped. */
  lemma {:induction false} Associate(a: string, b: string, c: string)
    ensures (a + b) + c == a + (b + c)
  {
  }

  /** Sequence bookkeeping for ReplaceStep: `s` with `r` spliced over the `n`
      characters at `p`, split at the end of `r`. */
  lemma {:induction false} SpliceParts(s: string, j: nat, p: nat, n: nat, r: string)
    requires j <= p && p + n <= |s|
    ensures (s[..p] + r + s[p + n..])[..p + |r|] == s[..j] + s[j..p] + r
    ensures (s[..p] + r + s[p + n..])[p + |r|..] == s[p + n..]
  {
    assert s[..j] + s[j..p] == s[..p];
  }

  /** When no match is left at or after `j`, the string is the full replacement. */
  lemma {:induction false} ReplaceEnd(str: string, m: string, r: string, result: string, j: nat)
    requires |m| > 0 && ReplacedFrom(str, m, r, result, j)
    requires Find(result, m, j) == None
    ensures result == Replaced(str, m, r)
  {
    FindInSuffix(result, m, j);
    ReplacedWithoutMatch(result[j..], m, r);
    assert result[..j] + result[j..] == result;
  }

  /** `ReplaceAll(str, pattern, replacement)`: the source's find/replace loop on the
      string, returning the string's new value. An empty `pattern` is excluded: the
      source loop never terminates on it. */
  method ReplaceAll(str: string, pattern: string, replacement: string) returns (result: string)
    requires |pattern| > 0
    ensures result == Replaced(str, pattern, replacement)
    ensures (forall q :: !IsMatchAt(str, pattern, q)) ==> result == str
  {
    result := str;
    var j: nat := 0;
    var pos := Find(result, pattern, 0);
    ReplaceStart(str, pattern, replacement);
    while pos.Some?
      invariant ReplacedFrom(str, pattern, replacement, result, j)
      invariant pos == Find(result, pattern, j)
      decreases |result| - j
    {
      var p := pos.value;
      ReplaceStep(str, pattern, replacement, result, j, p);
      result := result[..p] + replacement + result[p + |pattern|..];
      j := p + |replacement|;
      pos := Find(result, pattern, j);
    }
    ReplaceEnd(str, pattern, replacement, result, j);
    if forall q :: !IsMatchAt(str, pattern, q) {
      ReplacedWithoutMatch(str, pattern, replacement);
    }
  }

  /** `ReplaceAllCopy`: the same replacement on a copy of the input. */
  method ReplaceAllCopy(str: string, pattern: string, replacement: string) returns (copy: string)
    requires |pattern| > 0
    ensures copy == Replaced(str, pattern, replacement)
    ensures copy == Join(MatchPieces(str, pattern), replacement)
  {
    copy := str;
    copy := ReplaceAll(copy, pattern, replacement);
    ReplacedJoinsPieces(str, pattern, replacement);
  }

  // ---------------------------------------------------------------------------
  // Split

  /** The pieces of `s` between delimiter characters, empty pieces included;
      defined by the character appended last. */
  function Fields(s: string, delimiters: seq<char>): (ps: seq<string>)
    decreases |s|
    ensures |ps| > 0
  {
    if s == [] then [""]
    else
      var init := Fields(s[..|s| - 1], delimiters);
      var c := s[|s| - 1];
      if c in delimiters then init + [""]
      else init[..|init| - 1] + [init[|init| - 1] + [c]]
  }

  /** The delimiter characters of `s`, in order. */
  function DelimitersIn(s: string, delimiters: seq<char>): (ds: string)
    decreases |s|
    ensures forall i :: 0 <= i < |ds| ==> ds[i] in delimiters
  {
    if s == [] then []
    else
      var init := DelimitersIn(s[..|s| - 1], delimiters);
      if s[|s| - 1] in delimiters then init + [s[|s| - 1]] else init
  }

  /** The pieces with the consumed delimiters put back between them. */
  function Interleave(ps: seq<string>, ds: string): string
    requires |ps| == |ds| + 1
    decreases |ds|
  {
    if ds == [] then ps[0]
    else Interleave(ps[..|ps| - 1], ds[..|ds| - 1]) + [ds[|ds| - 1]] + ps[|ps| - 1]
  }

  /** The pieces that are not empty, in order. */
  function NonEmpty(ps: seq<string>): (r: seq<string>)
    ensures |r| <= |ps|
    ensures forall i :: 0 <= i < |r| ==> r[i] != [] && r[i] in ps
  {
    if ps == [] then []
    else (if ps[0] == [] then [] else [ps[0]]) + NonEmpty(ps[1..])
  }

  /** The pieces Split keeps: all of them, or with `compress` the non-empty ones. */
  function Kept(ps: seq<string>, compress: bool): seq<string>
  {
    if compress then NonEmpty(ps) else ps
  }

  /** What Split produces from the characters `s`. */
  function SplitPieces(s: string, delimiters: seq<char>, compress: bool): seq<string>
  {
    Kept(Fields(s, delimiters), compress)
  }

  /** Split's pieces so far: those ended by a delimiter of `t`, and the open one. */
  predicate SplitState(t: string, delimiters: seq<char>, compress: bool, outputList: seq<string>, piece: string)
  {
    var f := Fields(t, delimiters);
    f[|f| - 1] == piece && outputList == Kept(f[..|f| - 1], compress)
  }

  /** A delimiter character ends the open piece, which Split emits unless it is
      empty and `compress` is set; the next piece starts empty. */
  lemma {:induction false} SplitAtDelimiter(t: string, c: char, delimiters: seq<char>, compress: bool,
                                            outputList: seq<string>, piece: string)
    requires c in delimiters
    requires SplitState(t, delimiters, compress, outputList, piece)
    ensures SplitState(t + [c], delimiters, compress,
      outputList + (if piece != [] || !compress then [piece] else []), [])
  {
    var f := Fields(t, delimiters);
    FieldsSnoc(t, c, delimiters);
    assert f == f[..|f| - 1] + [piece];
    NonEmptyAppend(f[..|f| - 1], [piece]);
    assert (f + [""])[..|f|] == f;
  }

  /** Any other character extends the open piece. */
  lemma {:induction false} SplitAtOther(t: string, c: char, delimiters: seq<char>, compress: bool,
                                        outputList: seq<string>, piece: string)
    requires c !in delimiters
    requires SplitState(t, delimiters, compress, outputList, piece)
    ensures SplitState(t + [c], delimiters, compress, outputList, piece + [c])
  {
    var f := Fields(t, delimiters);
    FieldsSnoc(t, c, delimiters);
    var f' := f[..|f| - 1] + [piece + [c]];
    assert f'[..|f'| - 1] == f[..|f| - 1];
  }

  /** SplitAtDelimiter for the character at `it` of `s`, scanning from `begin` with
      the open piece starting at `start`. */
  lemma {:induction false} SplitStepDelimiter(s: string, begin: nat, start: nat, it: nat,
                                              delimiters: seq<char>, compress: bool,
                                              outputList: seq<string>)
    requires begin <= start <= it < |s| && s[it] in delimiters
    requires SplitState(s[begin..it], delimiters, compress, outputList, s[start..it])
    ensures SplitState(s[begin..it + 1], delimiters, compress,
      (if it != start || !compress then outputList + [s[start..it]] else outputList),
      s[it + 1..it + 1])
  {
    SplitAtDelimiter(s[begin..it], s[it], delimiters, compress, outputList, s[start..it]);
    assert s[begin..it + 1] == s[begin..it] + [s[it]];
    assert s[it + 1..it + 1] == [];
  }

  /** SplitAtOther for the character at `it` of `s`. */
  lemma {:induction false} SplitStepOther(s: string, begin: nat, start: nat, it: nat,
                                          delimiters: seq<char>, compress: bool,
                                          outputList: seq<string>)
    requires begin <= start <= it < |s| && s[it] !in delimiters
    requires SplitState(s[begin..it], delimiters, compress, outputList, s[start..it])
    ensures SplitState(s[begin..it + 1], delimiters, compress, outputList, s[start..it + 1])
  {
    SplitAtOther(s[begin..it], s[it], delimiters, compress, outputList, s[start..it]);
    assert s[begin..it + 1] == s[begin..it] + [s[it]];
    assert s[start..it + 1] == s[start..it] + [s[it]];
  }

  /** The last piece of Split: emitted unless it is empty and `compress` is set. */
  lemma {:induction false} SplitFinish(t: string, delimiters: seq<char>, compress: bool, outputList: seq<string>, piece: string)
    requires SplitState(t, delimiters, compress, outputList, piece)
    ensures outputList + (if piece != [] || !compress then [piece] else []) == SplitPieces(t, delimiters, compress)
  {
    var f := Fields(t, delimiters);
    assert f == f[..|f| - 1] + [piece];
    NonEmptyAppend(f[..|f| - 1], [piece]);
  }

  lemma {:induction false} NonEmptyAppend(a: seq<string>, b: seq<string>)
    ensures NonEmpty(a + b) == NonEmpty(a) + NonEmpty(b)
    decreases |a|
  {
    if a == [] {
      assert a + b == b;
    } else {
      assert (a + b)[1..] == a[1..] + b;
      NonEmptyAppend(a[1..], b);
    }
  }

  /** Appending one character to the input either starts a new, empty piece (a
      delimiter) or extends the last piece. */
  lemma {:induction false} FieldsSnoc(t: string, c: char, delimiters: seq<char>)
    ensures var f := Fields(t, delimiters);
      Fields(t + [c], delimiters) ==
        if c in delimiters then f + [""] else f[..|f| - 1] + [f[|f| - 1] + [c]]
  {
    assert (t + [c])[..|t + [c]| - 1] == t;
  }

  /** Without compression there is one more piece than there are delimiters. */
  lemma {:induction false} FieldsCount(s: string, delimiters: seq<char>)
    ensures |Fields(s, delimiters)| == |DelimitersIn(s, delimiters)| + 1
    decreases |s|
  {
    if s != [] {
      FieldsCount(s[..|s| - 1], delimiters);
    }
  }

  /** No piece contains a delimiter. */
  lemma {:induction false} FieldsFreeOfDelimiters(s: string, delimiters: seq<char>)
    ensures forall i, j :: 0 <= i < |Fields(s, delimiters)| && 0 <= j < |Fields(s, delimiters)[i]| ==>
      Fields(s, delimiters)[i][j] !in delimiters
    decreases |s|
  {
    if s != [] {
      FieldsFreeOfDelimiters(s[..|s| - 1], delimiters);
    }
  }

  /** Putting the consumed delimiters back between the pieces gives the input. */
  lemma {:induction false} FieldsRejoin(s: string, delimiters: seq<char>)
    ensures |Fields(s, delimiters)| == |DelimitersIn(s, delimiters)| + 1
    ensures Interleave(Fields(s, delimiters), DelimitersIn(s, delimiters)) == s
    decreases |s|
  {
    FieldsCount(s, delimiters);
    if s != [] {
      var t := s[..|s| - 1];
      var c := s[|s| - 1];
      FieldsRejoin(t, delimiters);
      var f := Fields(t, delimiters);
      var ds := DelimitersIn(t, delimiters);
      assert s == t + [c];
      if c in delimiters {
        var f' := f + [""];
        assert f'[..|f'| - 1] == f;
        assert (ds + [c])[..|ds|] == ds;
      } else {
        InterleaveExtendLast(f, ds, c);
      }
    }
  }

  /** Extending the last piece extends the interleaving by the same character. */
  lemma {:induction false} InterleaveExtendLast(ps: seq<string>, ds: string, c: char)
    requires |ps| == |ds| + 1
    ensures var ps' := ps[..|ps| - 1] + [ps[|ps| - 1] + [c]];
      |ps'| == |ds| + 1 && Interleave(ps', ds) == Interleave(ps, ds) + [c]
  {
    var ps' := ps[..|ps| - 1] + [ps[|ps| - 1] + [c]];
    if ds != [] {
      assert ps'[..|ps'| - 1] == ps[..|ps| - 1];
    }
  }

  /** What the pieces of Split are: without `compress`, one more than the delimiters
      and, with those delimiters put back between them, the input; with `compress`,
      never empty; and never containing a delimiter. */
  lemma {:induction false} SplitPiecesMeaning(s: string, delimiters: seq<char>, compress: bool)
    ensures var ps := SplitPieces(s, delimiters, compress);
      !compress ==> |ps| == |DelimitersIn(s, delimiters)| + 1 && Interleave(ps, DelimitersIn(s, delimiters)) == s
    ensures var ps := SplitPieces(s, delimiters, compress);
      compress ==> forall i :: 0 <= i < |ps| ==> ps[i] != []
    ensures var ps := SplitPieces(s, delimiters, compress);
      forall i, j :: 0 <= i < |ps| && 0 <= j < |ps[i]| ==> ps[i][j] !in delimiters
  {
    FieldsRejoin(s, delimiters);
    FieldsFreeOfDelimiters(s, delimiters);
  }

  /** `Split(begin, end, outputList, delimiters, compress)` on the characters
      `s[begin..end]`: one pass that ends a piece at every delimiter character and
      leaves out empty pieces when `compress` is set. */
  method Split(s: string, begin: nat, end: nat, delimiters: seq<char>, compress: bool)
      returns (outputList: seq<string>)
    requires begin <= end <= |s|
    ensures outputList == SplitPieces(s[begin..end], delimiters, compress)
    ensures !compress ==> |outputList| == |DelimitersIn(s[begin..end], delimiters)| + 1
    ensures !compress ==> Interleave(outputList, DelimitersIn(s[begin..end], delimiters)) == s[begin..end]
    ensures compress ==> forall i :: 0 <= i < |outputList| ==> outputList[i] != []
    ensures forall i, j :: 0 <= i < |outputList| && 0 <= j < |outputList[i]| ==> outputList[i][j] !in delimiters
  {
    outputList := [];
    var start := begin;
    var it := begin;
    assert s[begin..begin] == [];
    while it != end
      invariant begin <= start <= it <= end
      invariant SplitState(s[begin..it], delimiters, compress, outputList, s[start..it])
    {
      ghost var found := false;
      var j := 0;
      while j < |delimiters|
        invariant 0 <= j <= |delimiters|
        invariant forall i :: 0 <= i < j ==> delimiters[i] != s[it]
      {
        if s[it] == delimiters[j] {
          SplitStepDelimiter(s, begin, start, it, delimiters, compress, outputList);
          if it != start || !compress {
            outputList := outputList + [s[start..it]];
          }
          start := it + 1;
          found := true;
          break;
        }
        j := j + 1;
      }
      if !found {
        SplitStepOther(s, begin, start, it, delimiters, compress, outputList);
      }
      it := it + 1;
    }
    SplitFinish(s[begin..end], delimiters, compress, outputList, s[start..end]);
    if start != end || !compress {
      outputList := outputList + [s[start..end]];
    }
    SplitPiecesMeaning(s[begin..end], delimiters, compress);
  }

  /** `Split(begin, end, outputList, anyCharAsDelimiter, compress)`: every character of
      the delimiter string is a delimiter. */
  method SplitAnyOf(s: string, begin: nat, end: nat, anyCharAsDelimiter: string, compress: bool)
      returns (outputList: seq<string>)
    requires begin <= end <= |s|
    ensures outputList == SplitPieces(s[begin..end], anyCharAsDelimiter, compress)
  {
    var delimiters: seq<char> := anyCharAsDelimiter[..];
    outputList := Split(s, begin, end, delimiters, compress);
  }

  /** `Split(str, outputList, delimiters, compress)`: the whole string. */
  method SplitString(str: string, delimiters: string, compress: bool) returns (outputList: seq<string>)
    ensures outputList == SplitPieces(str, delimiters, compress)
  {
    outputList := SplitAnyOf(str, 0, |str|, delimiters, compress);
    assert str[0..|str|] == str;
  }

  // ---------------------------------------------------------------------------
  // Trim

  /** The characters Trim removes: " \n\r\t". */
  predicate IsSpace(c: char)
  {
    c == ' ' || c == '\n' || c == '\r' || c == '\t'
  }

  predicate AllSpace(s: string)
  {
    forall i :: 0 <= i < |s| ==> IsSpace(s[i])
  }

  /** `s.find_first_not_of(" \n\r\t", from)`. */
  function FindFirstNotSpace(s: string, from: nat): (r: Option<nat>)
    decreases |s| - from
    ensures r.Some? ==> from <= r.value < |s| && !IsSpace(s[r.value])
  {
    if from >= |s| then None
    else if !IsSpace(s[from]) then Some(from)
    else FindFirstNotSpace(s, from + 1)
  }

  /** Everything FindFirstNotSpace skips is whitespace. */
  lemma {:induction false} FirstNotSpaceSkipsSpace(s: string, from: nat)
    decreases |s| - from
    ensures var r := FindFirstNotSpace(s, from);
      forall i :: from <= i < (if r.Some? then r.value else |s|) ==> IsSpace(s[i])
  {
    if from < |s| && IsSpace(s[from]) {
      FirstNotSpaceSkipsSpace(s, from + 1);
    }
  }

  /** `s.find_last_not_of(" \n\r\t")`, searching back from position `before - 1`. */
  function FindLastNotSpace(s: string, before: nat): (r: Option<nat>)
    requires before <= |s|
    ensures r.Some? ==> r.value < before && !IsSpace(s[r.value])
  {
    if before == 0 then None
    else if !IsSpace(s[before - 1]) then Some(before - 1)
    else FindLastNotSpace(s, before - 1)
  }

  /** Everything FindLastNotSpace skips is whitespace. */
  lemma {:induction false} LastNotSpaceSkipsSpace(s: string, before: nat)
    requires before <= |s|
    ensures var r := FindLastNotSpace(s, before);
      forall i :: (if r.Some? then r.value + 1 else 0) <= i < before ==> IsSpace(s[i])
  {
    if before > 0 && IsSpace(s[before - 1]) {
      LastNotSpaceSkipsSpace(s, before - 1);
    }
  }

  /** `s.erase(pos, count)`: removes up to `count` characters from `pos`. */
  function Erase(s: string, pos: nat, count: nat): (r: string)
    requires pos <= |s|
    ensures |r| == |s| - Min(count, |s| - pos)
    ensures r[..pos] == s[..pos] && r[pos..] == s[pos + Min(count, |s| - pos)..]
  {
    s[..pos] + s[pos + Min(count, |s| - pos)..]
  }

  /** Reference definition: strip whitespace from the front, then from the back. */
  function TrimLeft(s: string): string
  {
    if s != [] && IsSpace(s[0]) then TrimLeft(s[1..]) else s
  }

  function TrimRight(s: string): string
  {
    if s != [] && IsSpace(s[|s| - 1]) then TrimRight(s[..|s| - 1]) else s
  }

  function Trimmed(s: string): string
  {
    TrimRight(TrimLeft(s))
  }

  /** TrimLeft drops exactly the leading whitespace. */
  lemma {:induction false} TrimLeftDrops(s: string, n: nat)
    requires n <= |s| && AllSpace(s[..n]) && (n < |s| ==> !IsSpace(s[n]))
    ensures TrimLeft(s) == s[n..]
    decreases n
  {
    if n > 0 {
      assert IsSpace(s[..n][0]);
      assert s[1..][..n - 1] == s[1..n];
      TrimLeftDrops(s[1..], n - 1);
      assert s[1..][n - 1..] == s[n..];
    }
  }

  /** TrimRight keeps exactly the part up to the last non-whitespace character. */
  lemma {:induction false} TrimRightKeeps(s: string, n: nat)
    requires n <= |s| && AllSpace(s[n..]) && (n > 0 ==> !IsSpace(s[n - 1]))
    ensures TrimRight(s) == s[..n]
    decreases |s| - n
  {
    if n < |s| {
      assert IsSpace(s[n..][|s| - 1 - n]);
      var t := s[..|s| - 1];
      assert t[n..] == s[n..|s| - 1];
      TrimRightKeeps(t, n);
      assert t[..n] == s[..n];
    } else {
      assert s[..n] == s;
    }
  }

  /** `Trim(str)`: erase the leading whitespace, then everything after the last
      non-whitespace character. When there is none, `find_last_not_of` gives `npos`
      and `npos + 1` wraps around to 0, erasing the whole (already empty) rest. */
  method Trim(str: string) returns (result: string)
    requires |str| < NPOS
    ensures result == Trimmed(str)
  {
    result := str;
    // Left trim.
    var first := FindFirstNotSpace(result, 0);
    var count := if first.Some? then first.value else NPOS;
    LeftTrimErases(result, count);
    result := Erase(result, 0, count);
    // Right trim.
    var last := FindLastNotSpace(result, |result|);
    var pos := SizeIncrement(if last.Some? then last.value else NPOS);
    assert |result| <= |str|;
    RightTrimErases(result, pos);
    result := Erase(result, pos, NPOS);
  }

  /** Erasing up to the first non-whitespace character (all of `s` when `find`
      reports `npos`) is TrimLeft. */
  lemma {:induction false} LeftTrimErases(s: string, count: nat)
    requires |s| < NPOS
    requires count == var f := FindFirstNotSpace(s, 0); if f.Some? then f.value else NPOS
    ensures Erase(s, 0, count) == TrimLeft(s)
  {
    var f := FindFirstNotSpace(s, 0);
    FirstNotSpaceSkipsSpace(s, 0);
    var lead := if f.Some? then f.value else |s|;
    assert Erase(s, 0, count) == s[lead..];
    TrimLeftDrops(s, lead);
  }

  /** Erasing from one past the last non-whitespace character (from 0 when `find`
      reports `npos`, as `npos + 1` wraps around) is TrimRight. */
  lemma {:induction false} RightTrimErases(s: string, pos: nat)
    requires |s| < NPOS
    requires pos == var l := FindLastNotSpace(s, |s|); SizeIncrement(if l.Some? then l.value else NPOS)
    ensures pos <= |s| && Erase(s, pos, NPOS) == TrimRight(s)
  {
    var l := FindLastNotSpace(s, |s|);
    LastNotSpaceSkipsSpace(s, |s|);
    assert pos == if l.Some? then l.value + 1 else 0;
    assert Erase(s, pos, NPOS) == s[..pos];
    TrimRightKeeps(s, pos);
  }

  /** `TrimCopy(str)`: Trim applied to a copy. */
  method TrimCopy(str: string) returns (copy: string)
    requires |str| < NPOS
    ensures copy == Trimmed(str)
  {
    copy := str;
    copy := Trim(copy);
  }

  /** Trim gives a contiguous part of the input whose ends are not whitespace, and
      everything it drops around that part is whitespace. */
  lemma {:induction false} TrimmedIsCore(s: string) returns (i: nat)
    ensures var t := Trimmed(s);
      i <= |s| - |t| && s[i..i + |t|] == t && AllSpace(s[..i]) && AllSpace(s[i + |t|..])
    ensures var t := Trimmed(s); t == [] || (!IsSpace(t[0]) && !IsSpace(t[|t| - 1]))
  {
    i := LeadingSpace(s);
    var l := s[i..];
    var n := TrailingSpaceStart(l);
    var t := Trimmed(s);
    assert t == l[..n];
    assert s[i..i + |t|] == t;
    assert s[i + |t|..] == l[n..];
  }

  /** TrimLeft removes the whitespace run that ends at the returned position. */
  lemma {:induction false} LeadingSpace(s: string) returns (i: nat)
    ensures i <= |s| && TrimLeft(s) == s[i..] && AllSpace(s[..i]) && (i < |s| ==> !IsSpace(s[i]))
  {
    var first := FindFirstNotSpace(s, 0);
    FirstNotSpaceSkipsSpace(s, 0);
    i := if first.Some? then first.value else |s|;
    TrimLeftDrops(s, i);
  }

  /** TrimRight keeps the part before the whitespace run that starts at the returned
      position. */
  lemma {:induction false} TrailingSpaceStart(s: string) returns (n: nat)
    ensures n <= |s| && TrimRight(s) == s[..n] && AllSpace(s[n..]) && (n > 0 ==> !IsSpace(s[n - 1]))
  {
    var last := FindLastNotSpace(s, |s|);
    LastNotSpaceSkipsSpace(s, |s|);
    n := if last.Some? then last.value + 1 else 0;
    TrimRightKeeps(s, n);
  }

  /** Trimming twice is trimming once. */
  lemma {:induction false} TrimmedIdempotent(s: string)
    ensures Trimmed(Trimmed(s)) == Trimmed(s)
  {
    var _ := TrimmedIsCore(s);
    var t := Trimmed(s);
    TrimLeftDrops(t, 0);
    TrimRightKeeps(t, |t|);
    assert t[..|t|] == t;
  }

  /** The input trims to nothing exactly when it is all whitespace. */
  lemma {:induction false} TrimmedEmptyIffAllSpace(s: string)
    ensures Trimmed(s) == [] <==> AllSpace(s)
  {
    var i := TrimmedIsCore(s);
    var t := Trimmed(s);
    if t == [] {
      assert s[i + |t|..] == s[i..];
      assert s == s[..i] + s[i..];
    } else {
      assert s[i] == t[0];
    }
  }

  // ---------------------------------------------------------------------------
  // Case mapping (ASCII letters only)

  predicate IsUpper(c: char) { 'A' <= c <= 'Z' }

  predicate IsLower(c: char) { 'a' <= c <= 'z' }

  /** `tolower` on one character. */
  function Lower(c: char): (r: char)
    ensures IsUpper(c) ==> IsLower(r) && r as int == c as int + 32
    ensures !IsUpper(c) ==> r == c
  {
    if IsUpper(c) then (c as int + 32) as char else c
  }

  /** `toupper` on one character. */
  function Upper(c: char): (r: char)
    ensures IsLower(c) ==> IsUpper(r) && r as int == c as int - 32
    ensures !IsLower(c) ==> r == c
  {
    if IsLower(c) then (c as int - 32) as char else c
  }

  /** The string with every character lowered, one by one. */
  function LowerString(s: string): (r: string)
    ensures |r| == |s| && forall i :: 0 <= i < |s| ==> r[i] == Lower(s[i])
  {
    if s == [] then [] else [Lower(s[0])] + LowerString(s[1..])
  }

  /** The string with every character raised, one by one. */
  function UpperString(s: string): (r: string)
    ensures |r| == |s| && forall i :: 0 <= i < |s| ==> r[i] == Upper(s[i])
  {
    if s == [] then [] else [Upper(s[0])] + UpperString(s[1..])
  }

  /** `ToLower(str)`: lowers the characters in place. */
  method ToLower(a: array<char>)
    modifies a
    ensures a[..] == LowerString(old(a[..]))
  {
    for i := 0 to a.Length
      invariant forall k :: 0 <= k < i ==> a[k] == Lower(old(a[k]))
      invariant forall k :: i <= k < a.Length ==> a[k] == old(a[k])
    {
      a[i] := Lower(a[i]);
    }
  }

  /** `ToUpper(str)`: raises the characters in place. */
  method ToUpper(a: array<char>)
    modifies a
    ensures a[..] == UpperString(old(a[..]))
  {
    for i := 0 to a.Length
      invariant forall k :: 0 <= k < i ==> a[k] == Upper(old(a[k]))
      invariant forall k :: i <= k < a.Length ==> a[k] == old(a[k])
    {
      a[i] := Upper(a[i]);
    }
  }

  /** `ToLowerCopy(str)`: ToLower on a fresh copy. */
  method ToLowerCopy(str: string) returns (copy: string)
    ensures |copy| == |str|
    ensures forall i :: 0 <= i < |str| ==> copy[i] == Lower(str[i])
  {
    var a := new char[|str|](i requires 0 <= i < |str| => str[i]);
    ToLower(a);
    copy := a[..];
  }

  /** `ToUpperCopy(str)`: ToUpper on a fresh copy. */
  method ToUpperCopy(str: string) returns (copy: string)
    ensures |copy| == |str|
    ensures forall i :: 0 <= i < |str| ==> copy[i] == Upper(str[i])
  {
    var a := new char[|str|](i requires 0 <= i < |str| => str[i]);
    ToUpper(a);
    copy := a[..];
  }

  /** Lowering leaves no upper-case letter, and lowering twice is lowering once. */
  lemma {:induction false} LowerStringIdempotent(s: string)
    ensures forall i :: 0 <= i < |s| ==> !IsUpper(LowerString(s)[i])
    ensures LowerString(LowerString(s)) == LowerString(s)
  {
  }

  /** Raising leaves no lower-case letter, and raising twice is raising once. */
  lemma {:induction false} UpperStringIdempotent(s: string)
    ensures forall i :: 0 <= i < |s| ==> !IsLower(UpperString(s)[i])
    ensures UpperString(UpperString(s)) == UpperString(s)
  {
  }

  /** Lowering forgets whether a letter was raised first. */
  lemma {:induction false} LowerIgnoresUpper(s: string)
    ensures LowerString(UpperString(s)) == LowerString(s)
  {
  }

  // ---------------------------------------------------------------------------
  // Case-insensitive comparison

  /** `left` is, ignoring case, a prefix of `right` (possibly all of it). */
  predicate CaseInsensitivePrefix(left: string, right: string)
  {
    |left| <= |right| && LowerString(left) == LowerString(right[..|left|])
  }

  /** The comparison as the source computes it: scan `left`; answer 1 when `right`
      runs out first, the difference of the first differing lowered characters, and 0
      when `left` runs out first (whether or not `right` goes on). */
  function Compared(left: string, right: string): int
    decreases |left|
  {
    if left == [] then 0
    else if right == [] then 1
    else if Lower(left[0]) != Lower(right[0]) then Lower(left[0]) as int - Lower(right[0]) as int
    else Compared(left[1..], right[1..])
  }

  /** The comparison is 0 exactly when `left` is, ignoring case, a prefix of `right`. */
  lemma {:induction false} ComparedZeroIffPrefix(left: string, right: string)
    ensures Compared(left, right) == 0 <==> CaseInsensitivePrefix(left, right)
    decreases |left|
  {
    if left != [] && right != [] {
      ComparedZeroIffPrefix(left[1..], right[1..]);
      assert LowerString(left) == [Lower(left[0])] + LowerString(left[1..]);
      if |left| <= |right| {
        assert right[..|left|][1..] == right[1..][..|left| - 1];
        assert LowerString(right[..|left|]) == [Lower(right[0])] + LowerString(right[1..][..|left| - 1]);
      }
    }
  }

  /** Where the two strings first differ ignoring case, the comparison is the
      difference of the lowered characters there; if `right` is, ignoring case, a
      proper prefix of `left`, it is 1. */
  lemma {:induction false} ComparedAtFirstDifference(left: string, right: string, k: nat)
    requires k <= |left| && k <= |right|
    requires forall i :: 0 <= i < k ==> Lower(left[i]) == Lower(right[i])
    ensures k < |left| && k < |right| && Lower(left[k]) != Lower(right[k]) ==>
      Compared(left, right) == Lower(left[k]) as int - Lower(right[k]) as int
    ensures k == |right| < |left| ==> Compared(left, right) == 1
    decreases k
  {
    if k > 0 {
      ComparedAtFirstDifference(left[1..], right[1..], k - 1);
    }
  }

  /** `CaseInsensitiveCompare(left, right)`: the index loop over `left` with early
      returns. */
  method CaseInsensitiveCompare(left: string, right: string) returns (r: int)
    ensures r == Compared(left, right)
    ensures r == 0 <==> CaseInsensitivePrefix(left, right)
  {
    ComparedZeroIffPrefix(left, right);
    for i := 0 to |left|
      invariant i <= |right|
      invariant Compared(left, right) == Compared(left[i..], right[i..])
    {
      if i == |right| {
        return 1;
      }
      var l := Lower(left[i]);
      var rr := Lower(right[i]);
      if l != rr {
        return l as int - rr as int;
      }
      assert left[i..][1..] == left[i + 1..] && right[i..][1..] == right[i + 1..];
    }
    return 0;
  }

  /** `CaseInsensitiveEquals(left, right)` as written: true when `left` is, ignoring
      case, a prefix of `right`, so also when `right` is longer. */
  method CaseInsensitiveEquals(left: string, right: string) returns (equal: bool)
    ensures equal <==> CaseInsensitivePrefix(left, right)
  {
    var c := CaseInsensitiveCompare(left, right);
    ComparedZeroIffPrefix(left, right);
    equal := c == 0;
  }

  /** The as-written comparison calls "a" and "aB" equal. */
  lemma EqualsAcceptsLongerRight()
    ensures Compared("a", "aB") == 0
    ensures LowerString("a") != LowerString("aB")
  {
    assert LowerString("a") == "a";
    assert |LowerString("aB")| == 2;
  }

  /** The comparison the source evidently intends: like Compared, but a `left` that
      runs out before `right` compares below it. */
  function ComparedIntended(left: string, right: string): int
    decreases |left|
  {
    if left == [] then (if right == [] then 0 else -1)
    else if right == [] then 1
    else if Lower(left[0]) != Lower(right[0]) then Lower(left[0]) as int - Lower(right[0]) as int
    else ComparedIntended(left[1..], right[1..])
  }

  /** The intended comparison is 0 exactly for strings equal ignoring case. */
  lemma {:induction false} ComparedIntendedZeroIffEqual(left: string, right: string)
    ensures ComparedIntended(left, right) == 0 <==> LowerString(left) == LowerString(right)
    decreases |left|
  {
    if left != [] && right != [] {
      ComparedIntendedZeroIffEqual(left[1..], right[1..]);
      assert LowerString(left) == [Lower(left[0])] + LowerString(left[1..]);
      assert LowerString(right) == [Lower(right[0])] + LowerString(right[1..]);
    }
  }

  /** The intended comparison is antisymmetric: swapping the arguments flips the sign. */
  lemma {:induction false} ComparedIntendedAntisymmetric(left: string, right: string)
    ensures ComparedIntended(left, right) < 0 <==> ComparedIntended(right, left) > 0
    ensures ComparedIntended(left, right) == 0 <==> ComparedIntended(right, left) == 0
    decreases |left|
  {
    if left != [] && right != [] && Lower(left[0]) == Lower(right[0]) {
      ComparedIntendedAntisymmetric(left[1..], right[1..]);
    }
  }

  /** The corrected CaseInsensitiveCompare: after the loop, a shorter `left` is below. */
  method CaseInsensitiveCompareIntended(left: string, right: string) returns (r: int)
    ensures r == ComparedIntended(left, right)
  {
    for i := 0 to |left|
      invariant i <= |right|
      invariant ComparedIntended(left, right) == ComparedIntended(left[i..], right[i..])
    {
      if i == |right| {
        return 1;
      }
      var l := Lower(left[i]);
      var rr := Lower(right[i]);
      if l != rr {
        return l as int - rr as int;
      }
      assert left[i..][1..] == left[i + 1..] && right[i..][1..] == right[i + 1..];
    }
    return if |left| < |right| then -1 else 0;
  }

  /** The corrected CaseInsensitiveEquals: true exactly for strings equal ignoring case. */
  method CaseInsensitiveEqualsIntended(left: string, right: string) returns (equal: bool)
    ensures equal <==> LowerString(left) == LowerString(right)
  {
    var c := CaseInsensitiveCompareIntended(left, right);
    ComparedIntendedZeroIffEqual(left, right);
    equal := c == 0;
  }
}
