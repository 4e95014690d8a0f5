/** A reference meaning for shell patterns, independent of how Go's Match
    interleaves parsing with matching: a pattern is first compiled into a
    sequence of elements (a literal, '?', a bracket class, a star), and an
    element sequence matches a name by the usual recursive rules, with a star
    standing for any run of characters other than the separator. The lemmas
    show that Glob.Match reports ErrBadPattern exactly when the pattern does
    not compile, and otherwise agrees with the reference meaning on every name
    without a separator (the names Match is asked about in this program). */
module GlobTheory {
  import opened Paths
  import opened Glob

  datatype Range = Range(lo: char, hi: char)

  datatype Elem =
    | Lit(ch: char)
    | AnyChar
    | Class(negated: bool, ranges: seq<Range>)
    | Star

  datatype RangesParse = Ranges(ranges: seq<Range>, rest: string) | RangesBad

  predicate InRanges(ranges: seq<Range>, x: char)
  {
    exists k :: 0 <= k < |ranges| && ranges[k].lo <= x <= ranges[k].hi
  }

  /** Whether a non-star element accepts the character x. */
  predicate ElemMatches(e: Elem, x: char)
  {
    match e
    case Lit(ch) => x == ch
    case AnyChar => x != Sep
    case Class(negated, ranges) => InRanges(ranges, x) != negated
    case Star => false
  }

  /** The ranges of a bracket expression, up to its closing ']'. */
  function ParseRanges(chunk: string, nrange: nat): (r: RangesParse)
    ensures r.Ranges? ==> |r.rest| < |chunk|
    decreases |chunk|
  {
    if |chunk| > 0 && chunk[0] == ']' && nrange > 0 then Ranges([], chunk[1..])
    else
      match GetEsc(chunk)
      case None => RangesBad
      case Some(lo) =>
        if lo.rest[0] == '-' then
          match GetEsc(lo.rest[1..])
          case None => RangesBad
          case Some(hi) =>
            match ParseRanges(hi.rest, nrange + 1)
            case RangesBad => RangesBad
            case Ranges(rs, rest) => Ranges([Range(lo.ch, hi.ch)] + rs, rest)
        else
          match ParseRanges(lo.rest, nrange + 1)
          case RangesBad => RangesBad
          case Ranges(rs, rest) => Ranges([Range(lo.ch, lo.ch)] + rs, rest)
  }

  /** The elements of one chunk: none of them is a star. */
  function ChunkElems(chunk: string): (r: Option<seq<Elem>>)
    ensures r.Some? ==> |r.value| <= |chunk| && (|chunk| > 0 ==> |r.value| > 0)
    ensures r.Some? ==> forall k :: 0 <= k < |r.value| ==> !r.value[k].Star?
    decreases |chunk|
  {
    if |chunk| == 0 then Some([])
    else if chunk[0] == '[' then
      var c := chunk[1..];
      var negated := |c| > 0 && c[0] == '^';
      var c := if negated then c[1..] else c;
      match ParseRanges(c, 0)
      case RangesBad => None
      case Ranges(rs, rest) =>
        match ChunkElems(rest)
        case None => None
        case Some(es) => Some([Class(negated, rs)] + es)
    else if chunk[0] == '?' then
      match ChunkElems(chunk[1..])
      case None => None
      case Some(es) => Some([AnyChar] + es)
    else if chunk[0] == '\\' then
      if |chunk| == 1 then None
      else
        match ChunkElems(chunk[2..])
        case None => None
        case Some(es) => Some([Lit(chunk[1])] + es)
    else
      match ChunkElems(chunk[1..])
      case None => None
      case Some(es) => Some([Lit(chunk[0])] + es)
  }

  /** A whole pattern as elements, or None when it is malformed. */
  function Compile(pattern: string): Option<seq<Elem>>
    decreases |pattern|
  {
    if |pattern| == 0 then Some([])
    else
      var c := ScanChunk(pattern);
      match ChunkElems(c.chunk)
      case None => None
      case Some(es) =>
        match Compile(c.rest)
        case None => None
        case Some(rs) => Some(if c.star then [Star] + es + rs else es + rs)
  }

  /** The reference meaning: a star either is done or eats one character
      that is not a separator; other elements each accept one character. */
  predicate GlobMatch(es: seq<Elem>, s: string)
    decreases |es|, |s|
  {
    if es == [] then s == []
    else if es[0].Star? then
      GlobMatch(es[1..], s) || (|s| > 0 && s[0] != Sep && GlobMatch(es, s[1..]))
    else |s| > 0 && ElemMatches(es[0], s[0]) && GlobMatch(es[1..], s[1..])
  }

  /** A star-free element sequence matched against the front of s. */
  predicate FixedMatch(es: seq<Elem>, s: string)
    ensures FixedMatch(es, s) ==> |es| <= |s|
    decreases |es|
  {
    es == [] || (|s| > 0 && ElemMatches(es[0], s[0]) && FixedMatch(es[1..], s[1..]))
  }

  predicate SepFree(s: string)
  {
    forall k :: 0 <= k < |s| ==> s[k] != Sep
  }

  // ---------------------------------------------------------------------
  // The bracket loop and matchChunk agree with the parsed elements.

  lemma {:induction false} ClassMatchIsParse(chunk: string, r: char, nrange: nat, matched: bool)
    ensures ParseRanges(chunk, nrange).RangesBad? ==> ClassMatch(chunk, r, nrange, matched).ClassBad?
    ensures ParseRanges(chunk, nrange).Ranges? ==>
      ClassMatch(chunk, r, nrange, matched)
        == ClassEnd(matched || InRanges(ParseRanges(chunk, nrange).ranges, r), ParseRanges(chunk, nrange).rest)
    decreases |chunk|
  {
    if |chunk| > 0 && chunk[0] == ']' && nrange > 0 {
    } else {
      match GetEsc(chunk)
      case None =>
      case Some(lo) =>
        if lo.rest[0] == '-' {
          match GetEsc(lo.rest[1..])
          case None =>
          case Some(hi) =>
            ClassMatchIsParse(hi.rest, r, nrange + 1, matched || (lo.ch <= r && r <= hi.ch));
            var p := ParseRanges(hi.rest, nrange + 1);
            if p.Ranges? {
              InRangesCons(Range(lo.ch, hi.ch), p.ranges, r);
            }
        } else {
          ClassMatchIsParse(lo.rest, r, nrange + 1, matched || (lo.ch <= r && r <= lo.ch));
          var p := ParseRanges(lo.rest, nrange + 1);
          if p.Ranges? {
            InRangesCons(Range(lo.ch, lo.ch), p.ranges, r);
          }
        }
    }
  }

  lemma InRangesCons(g: Range, rs: seq<Range>, x: char)
    ensures InRanges([g] + rs, x) == ((g.lo <= x <= g.hi) || InRanges(rs, x))
  {
    if InRanges(rs, x) {
      var k :| 0 <= k < |rs| && rs[k].lo <= x <= rs[k].hi;
      assert ([g] + rs)[k + 1] == rs[k];
    }
    if InRanges([g] + rs, x) && !(g.lo <= x <= g.hi) {
      var k :| 0 <= k < |[g] + rs| && ([g] + rs)[k].lo <= x <= ([g] + rs)[k].hi;
      assert rs[k - 1] == ([g] + rs)[k];
    }
  }

  /** matchChunk is the parsed chunk matched at the front of the name:
      Bad exactly when the chunk does not parse, and otherwise the rest of
      the name after as many characters as the chunk has elements. */
  lemma {:induction false} MatchChunkIsFixed(chunk: string, s: string, failed: bool)
    ensures ChunkElems(chunk).None? ==> MatchChunk(chunk, s, failed).Bad?
    ensures ChunkElems(chunk).Some? ==>
      var es := ChunkElems(chunk).value;
      MatchChunk(chunk, s, failed)
        == if !failed && FixedMatch(es, s) then Rest(s[|es|..]) else NoMatch
    decreases |chunk|, 1
  {
    if |chunk| == 0 {
    } else if chunk[0] == '[' {
      MatchChunkClass(chunk, s, failed);
    } else {
      var failed' := failed || |s| == 0;
      var t := if failed' then s else s[1..];
      if chunk[0] == '?' {
        MatchChunkIsFixed(chunk[1..], t, failed' || s[0] == Sep);
        if ChunkElems(chunk[1..]).Some? {
          FixedStep(AnyChar, ChunkElems(chunk[1..]).value, s, failed, failed' || s[0] == Sep);
        }
      } else if chunk[0] == '\\' {
        if |chunk| > 1 {
          MatchChunkIsFixed(chunk[2..], t, failed' || s[0] != chunk[1]);
          if ChunkElems(chunk[2..]).Some? {
            FixedStep(Lit(chunk[1]), ChunkElems(chunk[2..]).value, s, failed, failed' || s[0] != chunk[1]);
          }
        }
      } else {
        MatchChunkIsFixed(chunk[1..], t, failed' || s[0] != chunk[0]);
        if ChunkElems(chunk[1..]).Some? {
          FixedStep(Lit(chunk[0]), ChunkElems(chunk[1..]).value, s, failed, failed' || s[0] != chunk[0]);
        }
      }
    }
  }

  /** The bracket case of MatchChunkIsFixed. */
  lemma {:induction false} MatchChunkClass(chunk: string, s: string, failed: bool)
    requires |chunk| > 0 && chunk[0] == '['
    ensures ChunkElems(chunk).None? ==> MatchChunk(chunk, s, failed).Bad?
    ensures ChunkElems(chunk).Some? ==>
      var es := ChunkElems(chunk).value;
      MatchChunk(chunk, s, failed)
        == if !failed && FixedMatch(es, s) then Rest(s[|es|..]) else NoMatch
    decreases |chunk|, 0
  {
    var failed' := failed || |s| == 0;
    var r := if failed' then 0 as char else s[0];
    var t := if failed' then s else s[1..];
    var c0 := chunk[1..];
    var negated := |c0| > 0 && c0[0] == '^';
    var c := if negated then c0[1..] else c0;
    ClassMatchIsParse(c, r, 0, false);
    match ParseRanges(c, 0)
    case RangesBad =>
    case Ranges(rs, rest) =>
      MatchChunkIsFixed(rest, t, failed' || InRanges(rs, r) == negated);
      if ChunkElems(rest).Some? {
        var es := ChunkElems(rest).value;
        assert ChunkElems(chunk).value == [Class(negated, rs)] + es;
        FixedStep(Class(negated, rs), es, s, failed, failed' || InRanges(rs, r) == negated);
      }
  }

  /** One element of matchChunk: the flag after it is set when the name was
      already failed, is used up, or its first character is not accepted. */
  lemma FixedStep(e: Elem, es: seq<Elem>, s: string, failed: bool, failedNext: bool)
    requires failedNext == (failed || |s| == 0 || !ElemMatches(e, s[0]))
    ensures var t := if failed || |s| == 0 then s else s[1..];
      (if !failedNext && FixedMatch(es, t) then Rest(t[|es|..]) else NoMatch)
        == (if !failed && FixedMatch([e] + es, s) then Rest(s[|[e] + es|..]) else NoMatch)
  {
    assert ([e] + es)[1..] == es;
    if !failedNext && FixedMatch(es, s[1..]) {
      assert s[1..][|es|..] == s[|[e] + es|..];
    }
  }

  /** The syntax check Match runs before returning false fails exactly on
      patterns that do not compile. */
  lemma {:induction false} CheckRestIsCompile(pattern: string)
    ensures CheckRest(pattern) == if Compile(pattern).None? then ErrBadPattern else Ok(false)
    decreases |pattern|
  {
    if |pattern| > 0 {
      var c := ScanChunk(pattern);
      MatchChunkIsFixed(c.chunk, "", false);
      CheckRestIsCompile(c.rest);
    }
  }

  // ---------------------------------------------------------------------
  // Facts about the reference meaning.

  lemma {:induction false} FixedThen(es: seq<Elem>, rs: seq<Elem>, s: string)
    requires forall k :: 0 <= k < |es| ==> !es[k].Star?
    ensures GlobMatch(es + rs, s) == (FixedMatch(es, s) && |es| <= |s| && GlobMatch(rs, s[|es|..]))
    decreases |es|
  {
    if es == [] {
      assert es + rs == rs;
    } else {
      assert (es + rs)[0] == es[0];
      assert (es + rs)[1..] == es[1..] + rs;
      if |s| > 0 {
        FixedThen(es[1..], rs, s[1..]);
        if |es| <= |s| {
          assert s[1..][|es| - 1..] == s[|es|..];
        }
      }
    }
  }

  /** A star-led pattern that matches a suffix of a separator-free name also
      matches every longer suffix. */
  lemma {:induction false} StarLedExtends(rs: seq<Elem>, s: string, j: nat, i: nat)
    requires |rs| > 0 && rs[0].Star?
    requires SepFree(s) && i <= j <= |s|
    requires GlobMatch(rs, s[j..])
    ensures GlobMatch(rs, s[i..])
    decreases j - i
  {
    if i < j {
      StarLedExtends(rs, s, j, i + 1);
      assert s[i..][1..] == s[i + 1..];
    }
  }

  /** Whether a star followed by the fixed elements es and then rs matches
      s[j..], written as a search over the positions where es can start. */
  predicate StarFrom(es: seq<Elem>, rs: seq<Elem>, s: string, j: nat)
    decreases |s| + 1 - j
  {
    j <= |s| && ((FixedMatch(es, s[j..]) && j + |es| <= |s| && GlobMatch(rs, s[j + |es|..]))
                 || StarFrom(es, rs, s, j + 1))
  }

  lemma {:induction false} StarIsSearch(es: seq<Elem>, rs: seq<Elem>, s: string, j: nat)
    requires forall k :: 0 <= k < |es| ==> !es[k].Star?
    requires SepFree(s) && j <= |s|
    ensures GlobMatch([Star] + es + rs, s[j..]) == StarFrom(es, rs, s, j)
    decreases |s| - j
  {
    var all := [Star] + es + rs;
    assert all[1..] == es + rs;
    FixedThen(es, rs, s[j..]);
    if j + |es| <= |s| {
      assert s[j..][|es|..] == s[j + |es|..];
    }
    if j < |s| {
      StarIsSearch(es, rs, s, j + 1);
      assert s[j..][1..] == s[j + 1..];
    }
  }

  // ---------------------------------------------------------------------
  // The two theorems.

  /** Match reports ErrBadPattern exactly when the pattern does not compile,
      whatever the name. */
  lemma {:induction false} MatchBadIffMalformed(pattern: string, name: string)
    ensures Match(pattern, name).ErrBadPattern? <==> Compile(pattern).None?
    decreases |pattern|, 1, 0
  {
    if |pattern| > 0 {
      var c := ScanChunk(pattern);
      if !(c.star && c.chunk == []) {
        MatchChunkIsFixed(c.chunk, name, false);
        var first := MatchChunk(c.chunk, name, false);
        if first.Rest? && (|first.rest| == 0 || |c.rest| > 0) {
          MatchBadIffMalformed(c.rest, first.rest);
        } else if first.Bad? {
        } else if c.star {
          StarScanBadIffMalformed(c.chunk, c.rest, name, 0);
        } else {
          CheckRestIsCompile(c.rest);
        }
      }
    }
  }

  lemma {:induction false} StarScanBadIffMalformed(chunk: string, rest: string, name: string, i: nat)
    requires ChunkElems(chunk).Some? && i <= |name|
    ensures StarScan(chunk, rest, name, i).ErrBadPattern? <==> Compile(rest).None?
    decreases |rest|, 2, |name| - i
  {
    if i < |name| && name[i] != Sep {
      MatchChunkIsFixed(chunk, name[i + 1..], false);
      var t := MatchChunk(chunk, name[i + 1..], false);
      if t.Rest? {
        if |rest| == 0 && |t.rest| > 0 {
          StarScanBadIffMalformed(chunk, rest, name, i + 1);
        } else {
          MatchBadIffMalformed(rest, t.rest);
        }
      } else {
        StarScanBadIffMalformed(chunk, rest, name, i + 1);
      }
    } else {
      CheckRestIsCompile(rest);
    }
  }

  /** One step of Compile. */
  lemma CompileUnfold(pattern: string)
    requires |pattern| > 0 && Compile(pattern).Some?
    ensures ChunkElems(ScanChunk(pattern).chunk).Some?
    ensures Compile(ScanChunk(pattern).rest).Some?
    ensures ScanChunk(pattern).star ==>
              Compile(pattern).value
              == [Star] + ChunkElems(ScanChunk(pattern).chunk).value + Compile(ScanChunk(pattern).rest).value
    ensures !ScanChunk(pattern).star ==>
              Compile(pattern).value
              == ChunkElems(ScanChunk(pattern).chunk).value + Compile(ScanChunk(pattern).rest).value
  {
  }

  /** What follows a chunk compiles to nothing or to a star-led sequence. */
  lemma CompileStarLed(rest: string)
    requires rest == [] || rest[0] == '*'
    requires Compile(rest).Some?
    ensures rest == [] ==> Compile(rest).value == []
    ensures rest != [] ==> Compile(rest).value != [] && Compile(rest).value[0].Star?
  {
    if rest != [] {
      CompileUnfold(rest);
    }
  }

  /** On a name without a separator, a well-formed pattern's Match result is
      the reference meaning of its compiled elements. */
  lemma {:induction false} MatchAgrees(pattern: string, name: string)
    requires Compile(pattern).Some? && SepFree(name)
    ensures Match(pattern, name) == Ok(GlobMatch(Compile(pattern).value, name))
    decreases |pattern|, 3, 0
  {
    if |pattern| > 0 {
      var c := ScanChunk(pattern);
      CompileUnfold(pattern);
      if c.star && c.chunk == [] {
        assert Compile(pattern).value == [Star];
        StarAloneMatches(name);
      } else if c.star {
        MatchAgreesStar(pattern, name);
      } else {
        MatchAgreesFixed(pattern, name);
      }
    }
  }

  /** The one name with a separator that shouldIgnore can pass: the base of
      "/" is "/" itself. A star cannot eat it, so the star's only choice is
      the empty string and Match's committed search is the reference meaning
      here too. */
  lemma {:induction false} MatchAgreesOnRoot(pattern: string)
    requires Compile(pattern).Some?
    ensures Match(pattern, [Sep]) == Ok(GlobMatch(Compile(pattern).value, [Sep]))
  {
    if |pattern| > 0 {
      var c := ScanChunk(pattern);
      CompileUnfold(pattern);
      if c.star && c.chunk == [] {
        assert Compile(pattern).value == [Star];
        assert [Star][1..] == [];
      } else {
        RootChunkAgrees(c.chunk, c.rest, c.star);
        MatchOnRootUnfold(pattern);
        RootStarSkipped(pattern);
      }
    }
  }

  /** Match of a pattern that starts with a chunk, unfolded once on "/". */
  lemma {:induction false} MatchOnRootUnfold(pattern: string)
    requires |pattern| > 0 && ScanChunk(pattern).chunk != [] && ChunkElems(ScanChunk(pattern).chunk).Some?
    ensures var c := ScanChunk(pattern);
      var first := MatchChunk(c.chunk, [Sep], false);
      Match(pattern, [Sep]) ==
        if first.Rest? && (|first.rest| == 0 || |c.rest| > 0) then Match(c.rest, first.rest)
        else if c.star then StarScan(c.chunk, c.rest, [Sep], 0) else CheckRest(c.rest)
  {
    MatchChunkIsFixed(ScanChunk(pattern).chunk, [Sep], false);
  }

  /** A star in front of a chunk cannot eat "/", so the compiled pattern
      matches "/" exactly when the chunk's elements and the rest's do. */
  lemma {:induction false} RootStarSkipped(pattern: string)
    requires |pattern| > 0 && ScanChunk(pattern).chunk != [] && Compile(pattern).Some?
    ensures ChunkElems(ScanChunk(pattern).chunk).Some? && Compile(ScanChunk(pattern).rest).Some?
    ensures GlobMatch(Compile(pattern).value, [Sep])
      == GlobMatch(ChunkElems(ScanChunk(pattern).chunk).value + Compile(ScanChunk(pattern).rest).value, [Sep])
  {
    var c := ScanChunk(pattern);
    CompileUnfold(pattern);
    var es := ChunkElems(c.chunk).value;
    var rs := Compile(c.rest).value;
    var all := Compile(pattern).value;
    if c.star {
      StarCannotEatSep(es, rs, [Sep]);
    } else {
      assert all == es + rs;
    }
  }

  /** A star in front of a name that starts with the separator can only be
      done. */
  lemma StarCannotEatSep(es: seq<Elem>, rs: seq<Elem>, s: string)
    requires |s| > 0 && s[0] == Sep
    ensures GlobMatch([Star] + es + rs, s) == GlobMatch(es + rs, s)
  {
    assert ([Star] + es + rs)[1..] == es + rs;
  }

  /** One chunk of a pattern against "/", with or without a star before it:
      Match goes on with the rest of the pattern exactly where the chunk's
      elements, then the rest's, match "/". */
  lemma {:induction false} RootChunkAgrees(chunk: string, rest: string, star: bool)
    requires |chunk| > 0 && ChunkElems(chunk).Some? && Compile(rest).Some? && (rest == [] || rest[0] == '*')
    ensures !MatchChunk(chunk, [Sep], false).Bad?
    ensures var first := MatchChunk(chunk, [Sep], false);
      var after := if first.Rest? && (|first.rest| == 0 || |rest| > 0) then Match(rest, first.rest)
        else if star then StarScan(chunk, rest, [Sep], 0) else CheckRest(rest);
      after == Ok(GlobMatch(ChunkElems(chunk).value + Compile(rest).value, [Sep]))
  {
    var name := [Sep];
    var es := ChunkElems(chunk).value;
    var rs := Compile(rest).value;
    MatchChunkIsFixed(chunk, name, false);
    FixedThen(es, rs, name);
    CompileStarLed(rest);
    if FixedMatch(es, name) && (|name| == |es| || |rest| > 0) {
      assert name[|es|..] == [];
      MatchAgrees(rest, []);
    } else {
      CheckRestIsCompile(rest);
    }
  }

  lemma {:induction false} MatchAgreesFixed(pattern: string, name: string)
    requires |pattern| > 0 && !ScanChunk(pattern).star
    requires Compile(pattern).Some? && SepFree(name)
    ensures Match(pattern, name) == Ok(GlobMatch(Compile(pattern).value, name))
    decreases |pattern|, 2, 0
  {
    var c := ScanChunk(pattern);
    CompileUnfold(pattern);
    var es := ChunkElems(c.chunk).value;
    var rs := Compile(c.rest).value;
    assert Compile(pattern).value == es + rs;
    MatchChunkIsFixed(c.chunk, name, false);
    FixedThen(es, rs, name);
    CompileStarLed(c.rest);
    if FixedMatch(es, name) && (|name| == |es| || |c.rest| > 0) {
      assert MatchChunk(c.chunk, name, false) == Rest(name[|es|..]);
      SepFreeSuffix(name, |es|);
      MatchAgrees(c.rest, name[|es|..]);
      assert Match(pattern, name) == Match(c.rest, name[|es|..]);
    } else {
      assert MatchChunk(c.chunk, name, false) != Bad;
      CheckRestIsCompile(c.rest);
      assert Match(pattern, name) == CheckRest(c.rest);
    }
  }

  lemma SepFreeSuffix(s: string, k: nat)
    requires SepFree(s) && k <= |s|
    ensures SepFree(s[k..])
  {
    forall i | 0 <= i < |s[k..]|
      ensures s[k..][i] != Sep
    {
      assert s[k..][i] == s[k + i];
    }
  }

  lemma {:induction false} MatchAgreesStar(pattern: string, name: string)
    requires |pattern| > 0 && ScanChunk(pattern).star && ScanChunk(pattern).chunk != []
    requires Compile(pattern).Some? && SepFree(name)
    ensures Match(pattern, name) == Ok(GlobMatch(Compile(pattern).value, name))
    decreases |pattern|, 2, 0
  {
    var c := ScanChunk(pattern);
    CompileUnfold(pattern);
    var es := ChunkElems(c.chunk).value;
    var rs := Compile(c.rest).value;
    assert Compile(pattern).value == [Star] + es + rs;
    MatchChunkIsFixed(c.chunk, name, false);
    StarIsSearch(es, rs, name, 0);
    assert name[0..] == name;
    CompileStarLed(c.rest);
    if FixedMatch(es, name) && (|name| == |es| || |c.rest| > 0) {
      SepFreeSuffix(name, |es|);
      MatchAgrees(c.rest, name[|es|..]);
      StarSearchFirst(es, rs, name, 0, name[|es|..]);
    } else {
      StarScanAgrees(c.chunk, c.rest, name, 0);
      StarFromSkipsFirst(es, rs, name);
    }
  }

  /** When the first candidate position does not work, the search may as
      well start at the next one. */
  lemma StarFromSkipsFirst(es: seq<Elem>, rs: seq<Elem>, s: string)
    requires !(FixedMatch(es, s) && (|s| == |es| || rs != []))
    ensures StarFrom(es, rs, s, 0) == StarFrom(es, rs, s, 1)
  {
    assert s[0..] == s;
  }

  /** When the search's first candidate position already works, the search
      succeeds exactly when the rest matches there (a star-led rest can always
      be moved back to the first candidate). */
  lemma StarSearchFirst(es: seq<Elem>, rs: seq<Elem>, s: string, j: nat, v: string)
    requires SepFree(s) && j <= |s|
    requires FixedMatch(es, s[j..]) && j + |es| <= |s| && v == s[j + |es|..]
    requires rs == [] ==> j + |es| == |s|
    requires rs != [] ==> rs[0].Star?
    ensures StarFrom(es, rs, s, j) == GlobMatch(rs, v)
  {
    if StarFrom(es, rs, s, j) && !GlobMatch(rs, s[j + |es|..]) {
      var k := StarWitness(es, rs, s, j);
      if rs != [] {
        StarLedExtends(rs, s, k + |es|, j + |es|);
      }
    }
  }

  lemma {:induction false} StarWitness(es: seq<Elem>, rs: seq<Elem>, s: string, j: nat) returns (k: nat)
    requires StarFrom(es, rs, s, j)
    ensures j <= k <= |s| && k + |es| <= |s| && FixedMatch(es, s[k..]) && GlobMatch(rs, s[k + |es|..])
    decreases |s| + 1 - j
  {
    if FixedMatch(es, s[j..]) && j + |es| <= |s| && GlobMatch(rs, s[j + |es|..]) {
      k := j;
    } else {
      k := StarWitness(es, rs, s, j + 1);
    }
  }

  lemma StarAloneMatches(s: string)
    requires SepFree(s)
    ensures GlobMatch([Star], s)
    decreases |s|
  {
    assert [Star][1..] == [];
    if |s| > 0 {
      StarAloneMatches(s[1..]);
    }
  }

  lemma {:induction false} StarScanAgrees(chunk: string, rest: string, name: string, i: nat)
    requires ChunkElems(chunk).Some? && Compile(rest).Some? && (rest == [] || rest[0] == '*')
    requires SepFree(name) && i <= |name|
    ensures StarScan(chunk, rest, name, i) == Ok(StarFrom(ChunkElems(chunk).value, Compile(rest).value, name, i + 1))
    decreases |rest|, 5, |name| - i
  {
    var es := ChunkElems(chunk).value;
    var rs := Compile(rest).value;
    if i < |name| {
      var u := name[i + 1..];
      assert name[i] != Sep;
      MatchChunkIsFixed(chunk, u, false);
      if FixedMatch(es, u) && (|rest| > 0 || |u| == |es|) {
        StarScanFits(chunk, rest, name, i);
      } else {
        StarScanMisfit(chunk, rest, name, i);
        StarScanAgrees(chunk, rest, name, i + 1);
      }
    } else {
      CheckRestIsCompile(rest);
    }
  }

  /** Where the chunk does not fit (or, in the last chunk, does not use up
      the name), both the scan and the search move on to the next position. */
  lemma StarScanMisfit(chunk: string, rest: string, name: string, i: nat)
    requires ChunkElems(chunk).Some? && Compile(rest).Some? && (rest == [] || rest[0] == '*')
    requires i < |name| && name[i] != Sep
    requires !(FixedMatch(ChunkElems(chunk).value, name[i + 1..])
               && (|rest| > 0 || |name[i + 1..]| == |ChunkElems(chunk).value|))
    ensures StarScan(chunk, rest, name, i) == StarScan(chunk, rest, name, i + 1)
    ensures StarFrom(ChunkElems(chunk).value, Compile(rest).value, name, i + 1)
      == StarFrom(ChunkElems(chunk).value, Compile(rest).value, name, i + 2)
  {
    var es := ChunkElems(chunk).value;
    var rs := Compile(rest).value;
    var u := name[i + 1..];
    MatchChunkIsFixed(chunk, u, false);
    if FixedMatch(es, u) {
      CompileStarLed(rest);
      assert MatchChunk(chunk, u, false) == Rest(u[|es|..]);
      assert |u[|es|..]| > 0;
      assert !GlobMatch(rs, name[i + 1 + |es|..]);
    } else {
      assert MatchChunk(chunk, u, false) == NoMatch;
    }
  }

  /** The star search stops at the first position where the chunk fits. */
  lemma {:induction false} StarScanFits(chunk: string, rest: string, name: string, i: nat)
    requires ChunkElems(chunk).Some? && Compile(rest).Some? && (rest == [] || rest[0] == '*')
    requires SepFree(name) && i < |name|
    requires FixedMatch(ChunkElems(chunk).value, name[i + 1..])
    requires |rest| > 0 || |name[i + 1..]| == |ChunkElems(chunk).value|
    ensures StarScan(chunk, rest, name, i) == Ok(StarFrom(ChunkElems(chunk).value, Compile(rest).value, name, i + 1))
    decreases |rest|, 4, 0
  {
    var es := ChunkElems(chunk).value;
    var rs := Compile(rest).value;
    var v := name[i + 1 + |es|..];
    ChunkFits(chunk, name[i + 1..]);
    assert name[i + 1..][|es|..] == v;
    StarScanStep(chunk, rest, name, i, v);
    CompileStarLed(rest);
    StarSearchFirst(es, rs, name, i + 1, v);
    SepFreeSuffix(name, i + 1 + |es|);
    MatchAgrees(rest, v);
  }

  /** A chunk that fits the front of s leaves the rest of s. */
  lemma ChunkFits(chunk: string, s: string)
    requires ChunkElems(chunk).Some? && FixedMatch(ChunkElems(chunk).value, s)
    ensures MatchChunk(chunk, s, false) == Rest(s[|ChunkElems(chunk).value|..])
  {
    MatchChunkIsFixed(chunk, s, false);
  }

  /** Where the chunk leaves v, the star scan hands v to the rest of the
      pattern (unless this is the last chunk and v is not empty). */
  lemma StarScanStep(chunk: string, rest: string, name: string, i: nat, v: string)
    requires i < |name| && name[i] != Sep
    requires MatchChunk(chunk, name[i + 1..], false) == Rest(v)
    requires |rest| > 0 || |v| == 0
    ensures StarScan(chunk, rest, name, i) == Match(rest, v)
  {
  }
}
