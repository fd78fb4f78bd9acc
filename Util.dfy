/** String utilities: trimming whitespace and splitting on a delimiter. */
module Util {
  import opened Results

  /** The characters trimmed by the strip functions: space, newline,
      carriage return, tab, form feed and vertical tab. */
  const WHITESPACE: string := " \n\r\t\U{C}\U{B}"

  predicate IsSpace(c: char)
  {
    c in WHITESPACE
  }

  predicate AllSpace(s: string)
  {
    forall i :: 0 <= i < |s| ==> IsSpace(s[i])
  }

  // ---------------------------------------------------------------------
  // The std::string searches the utilities rely on

  /** s.find_first_not_of(WHITESPACE): the index of the first character
      that is not whitespace, None for npos. */
  function FindFirstNotOf(s: string): (r: Option<nat>)
    ensures r.None? <==> AllSpace(s)
    ensures r.Some? ==> r.value < |s| && !IsSpace(s[r.value]) && AllSpace(s[..r.value])
  {
    if |s| == 0 then None
    else if !IsSpace(s[0]) then Some(0)
    else
      match FindFirstNotOf(s[1..])
      case None => None
      case Some(k) =>
        assert s[..k + 1] == [s[0]] + s[1..][..k];
        Some(k + 1)
  }

  /** s.find_last_not_of(WHITESPACE): the index of the last character that
      is not whitespace, None for npos. */
  function FindLastNotOf(s: string): (r: Option<nat>)
    ensures r.None? <==> AllSpace(s)
    ensures r.Some? ==> r.value < |s| && !IsSpace(s[r.value]) && AllSpace(s[r.value + 1..])
  {
    if |s| == 0 then None
    else if !IsSpace(s[|s| - 1]) then Some(|s| - 1)
    else
      var r := FindLastNotOf(s[..|s| - 1]);
      assert r.Some? ==> s[r.value + 1..] == s[..|s| - 1][r.value + 1..] + [s[|s| - 1]];
      r
  }

  /** s.find(c, from): the index of the first c at or after from, None for
      npos. */
  function Find(s: string, c: char, from: nat): (r: Option<nat>)
    requires from <= |s|
    ensures r.None? ==> forall j :: from <= j < |s| ==> s[j] != c
    ensures r.Some? ==> from <= r.value < |s| && s[r.value] == c &&
                        forall j :: from <= j < r.value ==> s[j] != c
    decreases |s| - from
  {
    if from == |s| then None
    else if s[from] == c then Some(from)
    else Find(s, c, from + 1)
  }

  /** s.substr(pos, len): at most len characters from pos, fewer when the
      string ends first. */
  function Substr(s: string, pos: nat, len: nat): (r: string)
    requires pos <= |s|
    ensures |r| == if len <= |s| - pos then len else |s| - pos
    ensures r == s[pos..pos + |r|]
  {
    if len <= |s| - pos then s[pos..pos + len] else s[pos..]
  }

  // ---------------------------------------------------------------------
  // Stripping

  /** Util::lStrip: s without its leading whitespace. */
  function LStrip(s: string): (r: string)
    ensures |r| <= |s| && r == s[|s| - |r|..]
    ensures AllSpace(s[..|s| - |r|])
    ensures r == [] || !IsSpace(r[0])
    ensures r == [] <==> AllSpace(s)
  {
    match FindFirstNotOf(s)
    case None =>
      assert s[..|s|] == s;
      ""
    case Some(start) => s[start..]
  }

  /** Util::rStrip: s without its trailing whitespace. */
  function RStrip(s: string): (r: string)
    ensures |r| <= |s| && r == s[..|r|]
    ensures AllSpace(s[|r|..])
    ensures r == [] || !IsSpace(r[|r| - 1])
    ensures r == [] <==> AllSpace(s)
  {
    match FindLastNotOf(s)
    case None => ""
    case Some(end) => s[..end + 1]
  }

  /** Slicing the suffix s[k..] is slicing s from k. */
  lemma SliceOfSuffix(s: string, k: nat, n: nat)
    requires k + n <= |s|
    ensures s[k..][..n] == s[k..k + n] && s[k..][n..] == s[k + n..]
  {
  }

  /** The slice facts behind Strip. */
  lemma TrimmedSlice(s: string)
    ensures var k := |s| - |LStrip(s)|;
            var r := RStrip(LStrip(s));
            k + |r| <= |s| && r == s[k..k + |r|] && AllSpace(s[..k]) && AllSpace(s[k + |r|..])
  {
    var l := LStrip(s);
    assert l == s[|s| - |l|..];
    SliceOfSuffix(s, |s| - |l|, |RStrip(l)|);
  }

  /** The end facts behind Strip. */
  lemma TrimmedEnds(s: string)
    ensures var r := RStrip(LStrip(s));
            r == [] || (!IsSpace(r[0]) && !IsSpace(r[|r| - 1]))
  {
    var l := LStrip(s);
    var r := RStrip(l);
    if r != [] {
      assert r[0] == l[0];
    }
  }

  /** The emptiness fact behind Strip. */
  lemma TrimmedEmpty(s: string)
    ensures RStrip(LStrip(s)) == [] <==> AllSpace(s)
  {
    var l := LStrip(s);
    if l != [] {
      assert !IsSpace(l[0]);
    }
  }

  /** r is the slice of s that starts at k, with nothing but whitespace
      before and after it, and r neither starts nor ends with whitespace. */
  predicate Trimmed(s: string, r: string, k: int)
  {
    && 0 <= k && k + |r| <= |s| && r == s[k..k + |r|]
    && AllSpace(s[..k]) && AllSpace(s[k + |r|..])
    && (r == [] || (!IsSpace(r[0]) && !IsSpace(r[|r| - 1])))
  }

  /** The facts Strip promises, about rStrip after lStrip. */
  lemma StripFacts(s: string)
    ensures Trimmed(s, RStrip(LStrip(s)), |s| - |LStrip(s)|)
    ensures RStrip(LStrip(s)) == [] <==> AllSpace(s)
  {
    TrimmedSlice(s);
    TrimmedEnds(s);
    TrimmedEmpty(s);
  }

  /** Util::strip: the middle of s, after the leading whitespace and up to
      the trailing whitespace, with nothing but whitespace around it. It
      neither starts nor ends with whitespace, and it is empty exactly when
      s is all whitespace. */
  function Strip(s: string): (r: string)
    ensures r == RStrip(LStrip(s))
    ensures Trimmed(s, r, |s| - |LStrip(s)|)
    ensures r == [] <==> AllSpace(s)
  {
    StripFacts(s);
    RStrip(LStrip(s))
  }

  /** lStrip leaves a string without leading whitespace as it is. */
  lemma LStripNoop(s: string)
    requires s == [] || !IsSpace(s[0])
    ensures LStrip(s) == s
  {
  }

  /** rStrip leaves a string without trailing whitespace as it is. */
  lemma RStripNoop(s: string)
    requires s == [] || !IsSpace(s[|s| - 1])
    ensures RStrip(s) == s
  {
  }

  /** A string that neither starts nor ends with whitespace is its own
      strip. */
  lemma StripFixed(t: string)
    requires t == [] || (!IsSpace(t[0]) && !IsSpace(t[|t| - 1]))
    ensures Strip(t) == t
  {
    LStripNoop(t);
    RStripNoop(t);
  }

  /** Stripping twice is stripping once. */
  lemma StripIdempotent(s: string)
    ensures Strip(Strip(s)) == Strip(s)
  {
    StripFixed(Strip(s));
  }

  // ---------------------------------------------------------------------
  // Tokenizing

  /** The pieces of s between occurrences of c, read one character at a
      time: every c ends a piece, and the text after the last c is the final
      piece. */
  function Split(s: string, c: char): (r: seq<string>)
    ensures |r| >= 1
  {
    if |s| == 0 then [""]
    else
      var rest := Split(s[1..], c);
      if s[0] == c then [""] + rest
      else [[s[0]] + rest[0]] + rest[1..]
  }

  /** There is one piece more than there are c's in s, so an empty s has
      one empty piece. */
  lemma {:induction false} SplitCount(s: string, c: char)
    ensures |Split(s, c)| == multiset(s)[c] + 1
  {
    if |s| > 0 {
      SplitCount(s[1..], c);
      assert s == [s[0]] + s[1..];
    }
  }

  /** No piece holds a c. */
  lemma {:induction false} SplitPiecesFree(s: string, c: char)
    ensures forall i :: 0 <= i < |Split(s, c)| ==> c !in Split(s, c)[i]
  {
    if |s| > 0 {
      SplitPiecesFree(s[1..], c);
    }
  }

  /** The pieces joined back together with c between neighbours. */
  function Join(parts: seq<string>, c: char): string
    requires |parts| >= 1
  {
    if |parts| == 1 then parts[0] else parts[0] + [c] + Join(parts[1..], c)
  }

  /** Putting x in front of the first piece puts it in front of the joined
      string. */
  lemma JoinPrepend(x: char, parts: seq<string>, c: char)
    requires |parts| >= 1
    ensures Join([[x] + parts[0]] + parts[1..], c) == [x] + Join(parts, c)
  {
    var ps := [[x] + parts[0]] + parts[1..];
    assert ps[1..] == parts[1..];
  }

  /** Joining the pieces with c gives back s. */
  lemma {:induction false} JoinSplit(s: string, c: char)
    ensures Join(Split(s, c), c) == s
  {
    if |s| > 0 {
      var rest := Split(s[1..], c);
      JoinSplit(s[1..], c);
      if s[0] == c {
        assert ([""] + rest)[1..] == rest;
      } else {
        JoinPrepend(s[0], rest, c);
      }
      assert s == [s[0]] + s[1..];
    }
  }

  /** When the first c in s is at k, the first piece is s[..k] and the rest
      are the pieces of what follows it. */
  lemma {:induction false} SplitAtFirst(s: string, c: char, k: nat)
    requires k < |s| && s[k] == c && forall j :: 0 <= j < k ==> s[j] != c
    ensures Split(s, c) == [s[..k]] + Split(s[k + 1..], c)
  {
    if k > 0 {
      SplitAtFirst(s[1..], c, k - 1);
      assert s[1..][k..] == s[k + 1..];
      assert [s[0]] + s[1..][..k - 1] == s[..k];
    }
  }

  /** Without any c, s is its only piece. */
  lemma {:induction false} SplitNoDelim(s: string, c: char)
    requires forall j :: 0 <= j < |s| ==> s[j] != c
    ensures Split(s, c) == [s]
  {
    if |s| > 0 {
      SplitNoDelim(s[1..], c);
      assert s == [s[0]] + s[1..];
    }
  }

  /** Splitting a join of pieces that hold no c gives back the pieces. */
  lemma {:induction false} SplitJoin(parts: seq<string>, c: char)
    requires |parts| >= 1
    requires forall i :: 0 <= i < |parts| ==> c !in parts[i]
    ensures Split(Join(parts, c), c) == parts
  {
    if |parts| == 1 {
      SplitNoDelim(parts[0], c);
    } else {
      var s := Join(parts, c);
      var k := |parts[0]|;
      assert s[..k] == parts[0];
      assert s[k + 1..] == Join(parts[1..], c);
      SplitAtFirst(s, c, k);
      SplitJoin(parts[1..], c);
      assert parts == [parts[0]] + parts[1..];
    }
  }

  /** A first c at k from initialPos on closes the piece
      txt[initialPos..k]; the pieces after it are those of txt[k + 1..]. */
  lemma SplitFromFound(txt: string, c: char, initialPos: nat, k: nat)
    requires initialPos <= k < |txt| && txt[k] == c
    requires forall j :: initialPos <= j < k ==> txt[j] != c
    ensures Split(txt[initialPos..], c) == [txt[initialPos..k]] + Split(txt[k + 1..], c)
  {
    var rest := txt[initialPos..];
    SplitAtFirst(rest, c, k - initialPos);
    assert rest[..k - initialPos] == txt[initialPos..k];
    assert rest[k - initialPos + 1..] == txt[k + 1..];
  }

  /** With no c from initialPos on, the rest of txt is one piece. */
  lemma SplitFromNone(txt: string, c: char, initialPos: nat)
    requires initialPos <= |txt|
    requires forall j :: initialPos <= j < |txt| ==> txt[j] != c
    ensures Split(txt[initialPos..], c) == [txt[initialPos..]]
  {
    SplitNoDelim(txt[initialPos..], c);
  }

  /** One round of the tokenize loop keeps the pieces found so far followed
      by the pieces of the rest equal to the pieces of txt. */
  lemma TokenizeStep(txt: string, c: char, found: seq<string>, initialPos: nat, k: nat)
    requires initialPos <= |txt| && Find(txt, c, initialPos) == Some(k)
    requires found + Split(txt[initialPos..], c) == Split(txt, c)
    ensures k + 1 <= |txt|
    ensures (found + [txt[initialPos..k]]) + Split(txt[k + 1..], c) == Split(txt, c)
  {
    SplitFromFound(txt, c, initialPos, k);
    var later := Split(txt[k + 1..], c);
    assert found + ([txt[initialPos..k]] + later) == (found + [txt[initialPos..k]]) + later;
  }

  /** When find reports no more c, the pieces found so far and the rest of
      txt are all the pieces. */
  lemma TokenizeLast(txt: string, c: char, found: seq<string>, initialPos: nat)
    requires initialPos <= |txt| && Find(txt, c, initialPos).None?
    requires found + Split(txt[initialPos..], c) == Split(txt, c)
    ensures found + [txt[initialPos..]] == Split(txt, c)
  {
    SplitFromNone(txt, c, initialPos);
  }

  /** Util::tokenize: the pieces of txt between occurrences of ch, and their
      number. The out-parameter vector the source clears and fills is the
      returned sequence. The last piece is taken with a length one longer
      than what is left of txt, which substr cuts down to the rest of txt. */
  method Tokenize(txt: string, ch: char) returns (strs: seq<string>, count: nat)
    ensures strs == Split(txt, ch)
    ensures count == |strs| == multiset(txt)[ch] + 1
  {
    var pos := Find(txt, ch, 0);
    var initialPos: nat := 0;
    strs := [];
    assert txt[initialPos..] == txt;
    while pos.Some?
      invariant initialPos <= |txt|
      invariant pos == Find(txt, ch, initialPos)
      invariant strs + Split(txt[initialPos..], ch) == Split(txt, ch)
      decreases |txt| - initialPos
    {
      TokenizeStep(txt, ch, strs, initialPos, pos.value);
      strs := strs + [Substr(txt, initialPos, pos.value - initialPos)];
      initialPos := pos.value + 1;
      pos := Find(txt, ch, initialPos);
    }
    TokenizeLast(txt, ch, strs, initialPos);
    strs := strs + [Substr(txt, initialPos, |txt| - initialPos + 1)];
    count := |strs|;
    SplitCount(txt, ch);
  }
}
