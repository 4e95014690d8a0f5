/** Go's path/filepath.Match on Unix, written the way Go's source computes it:
    the pattern is cut into chunks at stars outside brackets; each chunk is
    compared by matchChunk, which keeps reading the chunk after a mismatch so
    that a malformed chunk is always reported; a star first tries its chunk at
    the current position and then at each later position it can reach without
    crossing a separator, committing to the first one that fits. Strings are
    sequences of characters (runes); byte-level UTF-8 decoding is not modelled. */
module Glob {
  import opened Paths

  /** Go's (matched bool, err error): Ok(m) when err is nil. */
  datatype Outcome = Ok(matched: bool) | ErrBadPattern

  /** scanChunk's three results. */
  datatype Chunk = Chunk(star: bool, chunk: string, rest: string)

  /** matchChunk's results: the unread rest of the name, a mismatch, or the
      ErrBadPattern error. */
  datatype ChunkResult = Rest(rest: string) | NoMatch | Bad

  /** One getEsc: a possibly escaped character of a bracket expression and
      what follows it. */
  datatype Esc = Esc(ch: char, rest: string)

  /** The parsed ranges of a bracket expression: whether the character is in
      one of them, and the chunk after the closing ']'. */
  datatype ClassResult = ClassEnd(matched: bool, rest: string) | ClassBad

  function SkipStars(p: string): (r: string)
    ensures |r| <= |p| && r == p[|p| - |r|..]
    ensures forall k :: 0 <= k < |p| - |r| ==> p[k] == '*'
    ensures |r| > 0 ==> r[0] != '*'
  {
    if |p| > 0 && p[0] == '*' then SkipStars(p[1..]) else p
  }

  /** Where scanChunk's loop stops: at the first '*' outside brackets, or at
      the end. A backslash makes the following character ordinary. */
  function ScanEnd(p: string, i: nat, inrange: bool): (j: nat)
    requires i <= |p|
    ensures i <= j <= |p|
    ensures j < |p| ==> p[j] == '*'
    decreases |p| - i
  {
    if i == |p| then i
    else if p[i] == '\\' then ScanEnd(p, if i + 1 < |p| then i + 2 else i + 1, inrange)
    else if p[i] == '[' then ScanEnd(p, i + 1, true)
    else if p[i] == ']' then ScanEnd(p, i + 1, false)
    else if p[i] == '*' && !inrange then i
    else ScanEnd(p, i + 1, inrange)
  }

  /** Go's scanChunk: leading stars, then the chunk up to the next star
      outside brackets, then the rest of the pattern. */
  function ScanChunk(pattern: string): (c: Chunk)
    ensures c.star == (|pattern| > 0 && pattern[0] == '*')
    ensures c.chunk == [] ==> c.rest == []
    ensures c.rest == [] || c.rest[0] == '*'
    ensures |pattern| > 0 ==> |c.rest| < |pattern|
    ensures c.star && c.chunk != [] ==> |c.rest| + 2 <= |pattern|
  {
    var p := SkipStars(pattern);
    var i := ScanEnd(p, 0, false);
    Chunk(|p| < |pattern|, p[..i], p[i..])
  }

  /** Go's getEsc: one character of a bracket expression, unescaped. It may
      not be missing, '-' or ']', and something must follow it. */
  function GetEsc(chunk: string): (r: Option<Esc>)
    ensures r.Some? ==> 0 < |r.value.rest| < |chunk|
  {
    if |chunk| == 0 || chunk[0] == '-' || chunk[0] == ']' then None
    else if chunk[0] == '\\' then
      if |chunk| <= 2 then None else Some(Esc(chunk[1], chunk[2..]))
    else if |chunk| == 1 then None
    else Some(Esc(chunk[0], chunk[1..]))
  }

  /** The range loop of matchChunk's '[' case: reads lo or lo-hi ranges up
      to a ']' that follows at least one range, and records whether `r` lies
      in one of them. */
  function ClassMatch(chunk: string, r: char, nrange: nat, matched: bool): (res: ClassResult)
    ensures res.ClassEnd? ==> |res.rest| < |chunk|
    decreases |chunk|
  {
    if |chunk| > 0 && chunk[0] == ']' && nrange > 0 then ClassEnd(matched, chunk[1..])
    else
      match GetEsc(chunk)
      case None => ClassBad
      case Some(lo) =>
        if lo.rest[0] == '-' then
          match GetEsc(lo.rest[1..])
          case None => ClassBad
          case Some(hi) => ClassMatch(hi.rest, r, nrange + 1, matched || (lo.ch <= r && r <= hi.ch))
        else ClassMatch(lo.rest, r, nrange + 1, matched || (lo.ch <= r && r <= lo.ch))
  }

  /** Go's matchChunk, with its `failed` flag: once the name has failed to
      match, the rest of the chunk is still read so that a malformed chunk is
      reported as Bad whatever the name. */
  function MatchChunk(chunk: string, s: string, failed: bool): ChunkResult
    decreases |chunk|
  {
    if |chunk| == 0 then (if failed then NoMatch else Rest(s))
    else
      var failed := failed || |s| == 0;
      if chunk[0] == '[' then
        var r := if failed then 0 as char else s[0];
        var t := if failed then s else s[1..];
        var c := chunk[1..];
        var negated := |c| > 0 && c[0] == '^';
        var c := if negated then c[1..] else c;
        match ClassMatch(c, r, 0, false)
        case ClassBad => Bad
        case ClassEnd(m, rest) => MatchChunk(rest, t, failed || m == negated)
      else if chunk[0] == '?' then
        MatchChunk(chunk[1..], if failed then s else s[1..], failed || s[0] == Sep)
      else if chunk[0] == '\\' then
        if |chunk| == 1 then Bad
        else MatchChunk(chunk[2..], if failed then s else s[1..], failed || s[0] != chunk[1])
      else
        MatchChunk(chunk[1..], if failed then s else s[1..], failed || s[0] != chunk[0])
  }

  /** The loop Go's Match runs before it returns false: every remaining
      chunk is read against the empty name so that a malformed one is
      reported. */
  function CheckRest(pattern: string): Outcome
    decreases |pattern|
  {
    if |pattern| == 0 then Ok(false)
    else
      var c := ScanChunk(pattern);
      if MatchChunk(c.chunk, "", false).Bad? then ErrBadPattern else CheckRest(c.rest)
  }

  /** Go's filepath.Match(pattern, name). */
  function Match(pattern: string, name: string): Outcome
    decreases |pattern|, 1, 0
  {
    if |pattern| == 0 then Ok(|name| == 0)
    else
      var c := ScanChunk(pattern);
      if c.star && c.chunk == [] then Ok(Sep !in name)
      else
        var first := MatchChunk(c.chunk, name, false);
        if first.Rest? && (|first.rest| == 0 || |c.rest| > 0) then Match(c.rest, first.rest)
        else if first.Bad? then ErrBadPattern
        else if c.star then StarScan(c.chunk, c.rest, name, 0)
        else CheckRest(c.rest)
  }

  /** The loop of Match that lets a star skip name[..i+1] before `chunk`:
      it may not skip a separator, and when `rest` is empty (the last chunk)
      the name must be used up. */
  function StarScan(chunk: string, rest: string, name: string, i: nat): Outcome
    requires i <= |name|
    decreases |rest|, 2, |name| - i
  {
    if i < |name| && name[i] != Sep then
      var t := MatchChunk(chunk, name[i + 1..], false);
      if t.Rest? then
        if |rest| == 0 && |t.rest| > 0 then StarScan(chunk, rest, name, i + 1)
        else Match(rest, t.rest)
      else if t.Bad? then ErrBadPattern
      else StarScan(chunk, rest, name, i + 1)
    else CheckRest(rest)
  }
}
