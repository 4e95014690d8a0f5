/** Lexical path handling as Go's path/filepath package does it on Unix, where
    the separator is '/' and there are no volume names. Only the functions the
    backup engine calls are modelled: Clean, Join, Rel, Base, Dir, together
    with strings.HasPrefix. Paths are strings of characters; no function here
    looks at a file system. */
module Paths {

  type Path = string

  datatype Option<T> = None | Some(value: T)

  const Sep: char := '/'

  /** The elements of `p` between separators, empty ones included:
      Split("/a//b") == ["", "a", "", "b"], Split("") == [""]. */
  function Split(p: string): (r: seq<string>)
    ensures |r| > 0
    ensures forall k :: 0 <= k < |r| ==> Sep !in r[k]
  {
    if |p| == 0 then [""]
    else if p[0] == Sep then [""] + Split(p[1..])
    else
      var t := Split(p[1..]);
      [[p[0]] + t[0]] + t[1..]
  }

  /** The elements of `segs` joined by separators (Go's strings.Join with "/"). */
  function JoinSegs(segs: seq<string>): string
  {
    if |segs| == 0 then ""
    else if |segs| == 1 then segs[0]
    else segs[0] + [Sep] + JoinSegs(segs[1..])
  }

  /** True when no element holds a separator, so that Split can undo JoinSegs. */
  predicate SegmentsSepFree(segs: seq<string>)
  {
    forall k :: 0 <= k < |segs| ==> Sep !in segs[k]
  }

  function Repeat(s: string, n: nat): (r: seq<string>)
    ensures |r| == n && forall k :: 0 <= k < n ==> r[k] == s
  {
    if n == 0 then [] else [s] + Repeat(s, n - 1)
  }

  predicate HasPrefix(s: string, prefix: string)
  {
    |prefix| <= |s| && s[..|prefix|] == prefix
  }

  // ---------------------------------------------------------------- Clean

  /** One step of Clean's rewriting: "" and "." vanish, ".." removes the
      preceding real name, or is dropped at the root, or is kept in front of a
      relative path; any other name is appended. */
  function Push(stack: seq<string>, seg: string, rooted: bool): seq<string>
  {
    if seg == "" || seg == "." then stack
    else if seg == ".." then
      if |stack| > 0 && stack[|stack| - 1] != ".." then stack[..|stack| - 1]
      else if rooted then stack
      else stack + [".."]
    else stack + [seg]
  }

  function NormalizeFrom(stack: seq<string>, segs: seq<string>, rooted: bool): (r: seq<string>)
    ensures IsNormal(stack, rooted) && SegmentsSepFree(segs) ==> IsNormal(r, rooted)
    decreases |segs|
  {
    if segs == [] then stack
    else NormalizeFrom(Push(stack, segs[0], rooted), segs[1..], rooted)
  }

  /** The element list of a clean path: no empty element, no ".", no separator
      inside an element, and ".." only in a run at the front of a relative path. */
  predicate IsNormal(names: seq<string>, rooted: bool)
  {
    forall k :: 0 <= k < |names| ==>
      names[k] != "" && names[k] != "." && Sep !in names[k] &&
      (names[k] == ".." ==> !rooted && forall j :: 0 <= j < k ==> names[j] == "..")
  }

  /** A name that Clean keeps as it is: not empty, not "." or "..", no separator. */
  predicate IsName(s: string)
  {
    s != "" && s != "." && s != ".." && Sep !in s
  }

  /** The element list Clean reduces `p` to. */
  function Names(p: Path): (names: seq<string>)
    ensures IsNormal(names, IsRooted(p))
  {
    NormalizeFrom([], Split(p), IsRooted(p))
  }

  predicate IsRooted(p: Path)
  {
    |p| > 0 && p[0] == Sep
  }

  /** The path spelled by an element list: "/" in front when rooted, "." for
      an empty relative list. */
  function Render(names: seq<string>, rooted: bool): (r: Path)
    requires IsNormal(names, rooted)
    ensures |r| > 0 && IsRooted(r) == rooted
  {
    if rooted then [Sep] + JoinSegs(names)
    else if names == [] then "."
    else
      JoinSegsHead(names);
      JoinSegs(names)
  }

  /** Go's filepath.Clean: the shortest lexically equivalent path. */
  function Clean(p: Path): (r: Path)
    ensures |r| > 0 && IsRooted(r) == IsRooted(p)
  {
    if p == "" then "." else Render(Names(p), IsRooted(p))
  }

  /** The element list of a clean path, without the root: Elements("/a/b") ==
      ["a", "b"], Elements("/") == [], Elements(".") == ["."]. */
  function Elements(c: Path): seq<string>
  {
    if c == "" || c == [Sep] then []
    else if c[0] == Sep then Split(c[1..])
    else Split(c)
  }

  // ---------------------------------------------------------------- Join

  function FirstNonEmpty(elems: seq<Path>): (i: nat)
    ensures i <= |elems|
    ensures forall k :: 0 <= k < i ==> elems[k] == ""
    ensures i < |elems| ==> elems[i] != ""
  {
    if |elems| == 0 then 0
    else if elems[0] != "" then 0
    else 1 + FirstNonEmpty(elems[1..])
  }

  /** Go's filepath.Join: the elements from the first non-empty one on, joined
      by separators and cleaned; "" when every element is empty. */
  function Join(elems: seq<Path>): (r: Path)
    ensures (r == "") == (forall k :: 0 <= k < |elems| ==> elems[k] == "")
  {
    var i := FirstNonEmpty(elems);
    if i == |elems| then "" else Clean(JoinSegs(elems[i..]))
  }

  // ---------------------------------------------------------------- Rel

  /** Number of leading elements `a` and `b` share. */
  function CommonPrefix(a: seq<string>, b: seq<string>): (k: nat)
    ensures k <= |a| && k <= |b|
    ensures a[..k] == b[..k]
    ensures k < |a| && k < |b| ==> a[k] != b[k]
  {
    if |a| == 0 || |b| == 0 || a[0] != b[0] then 0
    else
      var k := CommonPrefix(a[1..], b[1..]);
      assert a[..k + 1] == [a[0]] + a[1..][..k];
      assert b[..k + 1] == [b[0]] + b[1..][..k];
      1 + k
  }

  /** The elements Rel answers with: enough ".." to climb from the base's
      elements to the part they share with the target's, then the rest of the
      target's; None when the climb would have to undo a "..". */
  function RelSegs(bs: seq<string>, ts: seq<string>): Option<seq<string>>
  {
    var k := CommonPrefix(bs, ts);
    if k < |bs| && bs[k] == ".." then None
    else Some(Repeat("..", |bs| - k) + ts[k..])
  }

  /** Go's filepath.Rel: a path that, joined to `basepath`, is lexically
      `targpath`; None where Go returns an error (one path rooted and the other
      not, or the base would need a ".." undone). Go blanks a base that cleans
      to "." but not such a target, so Rel("a", ".") is "../.". */
  function Rel(basepath: Path, targpath: Path): (r: Option<Path>)
  {
    var base := Clean(basepath);
    var targ := Clean(targpath);
    if targ == base then Some(".")
    else if IsRooted(base) != IsRooted(targ) then None
    else
      match RelSegs(if base == "." then [] else Elements(base), Elements(targ))
      case None => None
      case Some(segs) => Some(JoinSegs(segs))
  }

  // ---------------------------------------------------------------- Base and Dir

  function TrimTrailingSeps(p: string): (r: string)
    ensures |r| <= |p| && r == p[..|r|]
    ensures |r| > 0 ==> r[|r| - 1] != Sep
    ensures forall k :: |r| <= k < |p| ==> p[k] == Sep
  {
    if |p| > 0 && p[|p| - 1] == Sep then TrimTrailingSeps(p[..|p| - 1]) else p
  }

  /** Go's filepath.Base: the last element after trailing separators are
      removed; "." for the empty path and "/" for a path of separators only. */
  function Base(p: Path): (r: Path)
  {
    if p == "" then "."
    else
      var q := TrimTrailingSeps(p);
      if q == "" then [Sep]
      else
        var segs := Split(q);
        segs[|segs| - 1]
  }

  /** `p` up to and including its last separator; "" when it has none. */
  function DirPrefix(p: string): (r: string)
    ensures |r| <= |p| && r == p[..|r|]
    ensures |r| > 0 ==> r[|r| - 1] == Sep
    ensures forall k :: |r| <= k < |p| ==> p[k] != Sep
  {
    if |p| == 0 then ""
    else if p[|p| - 1] == Sep then p
    else DirPrefix(p[..|p| - 1])
  }

  /** Go's filepath.Dir: everything before the last element, cleaned. */
  function Dir(p: Path): (r: Path)
    ensures |r| > 0
  {
    Clean(DirPrefix(p))
  }

  // ---------------------------------------------------------------- lemmas

  lemma JoinSegsHead(names: seq<string>)
    requires |names| > 0 && names[0] != "" && Sep !in names[0]
    ensures |JoinSegs(names)| > 0 && JoinSegs(names)[0] == names[0][0] != Sep
  {
  }

  lemma {:induction false} SplitSingle(x: string)
    requires Sep !in x
    ensures Split(x) == [x]
  {
    if |x| > 0 {
      SplitSingle(x[1..]);
      assert [x[0]] + x[1..] == x;
    }
  }

  lemma {:induction false} SplitAppend(a: string, b: string)
    ensures Split(a + [Sep] + b) == Split(a) + Split(b)
  {
    if |a| == 0 {
      assert a + [Sep] + b == [Sep] + b;
      assert ([Sep] + b)[1..] == b;
    } else {
      assert (a + [Sep] + b)[1..] == a[1..] + [Sep] + b;
      SplitAppend(a[1..], b);
    }
  }

  /** Split undoes JoinSegs on separator-free elements. */
  lemma {:induction false} SplitJoin(segs: seq<string>)
    requires |segs| > 0 && SegmentsSepFree(segs)
    ensures Split(JoinSegs(segs)) == segs
  {
    if |segs| == 1 {
      SplitSingle(segs[0]);
    } else {
      SplitJoin(segs[1..]);
      SplitAppend(segs[0], JoinSegs(segs[1..]));
      SplitSingle(segs[0]);
    }
  }

  /** JoinSegs on a list split into its first element and the rest. */
  lemma JoinSegsCons(x: string, t: seq<string>)
    ensures JoinSegs([x] + t) == x + JoinTail(t)
  {
    if |t| > 0 {
      assert ([x] + t)[1..] == t;
    } else {
      assert [x] + t == [x];
    }
  }

  /** What follows the first element in JoinSegs: nothing, or a separator and
      the rest joined. */
  function JoinTail(t: seq<string>): string
  {
    if |t| == 0 then "" else [Sep] + JoinSegs(t)
  }

  /** Putting a character in front of the first element puts it in front of
      the joined string. */
  lemma JoinSegsPrepend(c: char, x: string, r: seq<string>)
    ensures JoinSegs([[c] + x] + r) == [c] + JoinSegs([x] + r)
  {
    JoinSegsCons([c] + x, r);
    JoinSegsCons(x, r);
    assert ([c] + x) + JoinTail(r) == [c] + (x + JoinTail(r));
  }

  /** JoinSegs undoes Split. */
  lemma {:induction false} JoinSplit(p: string)
    ensures JoinSegs(Split(p)) == p
  {
    if |p| > 0 {
      JoinSplit(p[1..]);
      var t := Split(p[1..]);
      if p[0] == Sep {
        JoinSegsCons("", t);
        assert "" + JoinTail(t) == [Sep] + JoinSegs(t);
        assert [Sep] + p[1..] == p;
      } else {
        JoinSegsPrepend(p[0], t[0], t[1..]);
        assert [t[0]] + t[1..] == t;
        assert [p[0]] + p[1..] == p;
      }
    }
  }

  lemma {:induction false} NormalizeConcat(stack: seq<string>, a: seq<string>, b: seq<string>, rooted: bool)
    ensures NormalizeFrom(stack, a + b, rooted) == NormalizeFrom(NormalizeFrom(stack, a, rooted), b, rooted)
    decreases |a|
  {
    if a != [] {
      assert (a + b)[0] == a[0] && (a + b)[1..] == a[1..] + b;
      NormalizeConcat(Push(stack, a[0], rooted), a[1..], b, rooted);
    } else {
      assert a + b == b;
    }
  }

  /** Clean leaves an already clean element list alone. */
  lemma {:induction false} NormalizeKeepsNormal(stack: seq<string>, segs: seq<string>, rooted: bool)
    requires IsNormal(stack + segs, rooted)
    ensures NormalizeFrom(stack, segs, rooted) == stack + segs
    decreases |segs|
  {
    if segs != [] {
      var all := stack + segs;
      assert all[|stack|] == segs[0];
      if segs[0] == ".." && |stack| > 0 {
        assert all[|stack| - 1] == stack[|stack| - 1];
      }
      assert Push(stack, segs[0], rooted) == stack + [segs[0]];
      assert stack + segs == (stack + [segs[0]]) + segs[1..];
      NormalizeKeepsNormal(stack + [segs[0]], segs[1..], rooted);
    } else {
      assert stack + segs == stack;
    }
  }

  /** n ".." elements remove the last n real names of a clean list. */
  lemma {:induction false} NormalizePops(kept: seq<string>, popped: seq<string>, rooted: bool)
    requires IsNormal(kept + popped, rooted)
    requires forall j :: 0 <= j < |popped| ==> popped[j] != ".."
    ensures NormalizeFrom(kept + popped, Repeat("..", |popped|), rooted) == kept
    decreases |popped|
  {
    if popped != [] {
      var last := |popped| - 1;
      assert (kept + popped)[|kept + popped| - 1] == popped[last];
      assert (kept + popped)[..|kept + popped| - 1] == kept + popped[..last];
      assert Repeat("..", |popped|)[1..] == Repeat("..", last);
      assert IsNormal(kept + popped[..last], rooted) by {
        forall k | 0 <= k < |kept + popped[..last]|
          ensures (kept + popped[..last])[k] == (kept + popped)[k]
        {
        }
      }
      NormalizePops(kept, popped[..last], rooted);
    } else {
      assert kept + popped == kept;
    }
  }

  lemma {:induction false} ElementsRender(names: seq<string>, rooted: bool)
    requires IsNormal(names, rooted)
    ensures Elements(Render(names, rooted)) == if !rooted && names == [] then ["."] else names
  {
    if names != [] {
      SplitJoin(names);
      JoinSegsHead(names);
      if rooted {
        assert ([Sep] + JoinSegs(names))[1..] == JoinSegs(names);
      }
    } else if !rooted {
      SplitSingle(".");
    } else {
      assert Render(names, rooted) == [Sep];
    }
  }

  /** Names(Clean(p)) == Names(p): cleaning reaches a fixed point. */
  lemma NamesOfRender(names: seq<string>, rooted: bool)
    requires IsNormal(names, rooted)
    ensures Names(Render(names, rooted)) == names
  {
    var c := Render(names, rooted);
    if rooted {
      SplitAppend("", JoinSegs(names));
      assert c == "" + [Sep] + JoinSegs(names);
      assert Split(c) == [""] + Split(JoinSegs(names));
      if names == [] {
        assert Split(c) == ["", ""];
        assert NormalizeFrom([], ["", ""], rooted) == NormalizeFrom([], [""], rooted);
        assert NormalizeFrom([], [""], rooted) == NormalizeFrom([], [], rooted);
      } else {
        SplitJoin(names);
        NormalizeKeepsNormal([], names, rooted);
        assert Split(c)[1..] == names;
      }
    } else if names == [] {
      SplitSingle(".");
    } else {
      SplitJoin(names);
      JoinSegsHead(names);
      NormalizeKeepsNormal([], names, rooted);
    }
  }

  /** Clean is idempotent. */
  lemma CleanIdempotent(p: Path)
    ensures Clean(Clean(p)) == Clean(p)
  {
    if p != "" {
      NamesOfRender(Names(p), IsRooted(p));
    } else {
      NamesOfRender([], false);
    }
  }

  /** Cleaning a path built by appending elements to `a` continues from the
      names `a` cleans to. */
  lemma NamesAppend(a: Path, b: Path)
    requires a != ""
    ensures Names(a + [Sep] + b) == NormalizeFrom(Names(a), Split(b), IsRooted(a))
    ensures IsRooted(a + [Sep] + b) == IsRooted(a)
  {
    SplitAppend(a, b);
    NormalizeConcat([], Split(a), Split(b), IsRooted(a));
  }

  lemma JoinSegsStartsWith(segs: seq<string>)
    requires |segs| > 0
    ensures |segs[0]| <= |JoinSegs(segs)| && JoinSegs(segs)[..|segs[0]|] == segs[0]
  {
  }

  lemma CleanIsRender(p: Path)
    ensures Clean(p) == Render(Names(p), IsRooted(p))
  {
    if p == "" {
      assert Split(p) == [""];
      assert NormalizeFrom([], [""], false) == NormalizeFrom([], [], false);
    }
  }

  /** The element lists Rel compares are those Clean produces. */
  lemma RelComparesNames(b: Path, t: Path)
    ensures (if Clean(b) == "." then [] else Elements(Clean(b))) == Names(b)
    ensures Elements(Clean(t)) == if Clean(t) == "." then ["."] else Names(t)
    ensures Clean(t) == "." ==> !IsRooted(t) && Names(t) == []
  {
    CleanIsRender(b);
    CleanIsRender(t);
    ElementsRender(Names(b), IsRooted(b));
    ElementsRender(Names(t), IsRooted(t));
  }

  /** After a clean list's first non-".." element, no ".." follows. */
  lemma NormalTailNoDotDot(names: seq<string>, rooted: bool, k: nat)
    requires IsNormal(names, rooted) && k < |names| && names[k] != ".."
    ensures forall j :: 0 <= j < |names[k..]| ==> names[k..][j] != ".."
  {
    forall j | 0 <= j < |names[k..]| ensures names[k..][j] != ".." {
      assert names[k..][j] == names[k + j];
    }
  }

  /** Cleaning RelSegs on top of the base's elements climbs to the shared part
      and descends to the target's elements. */
  lemma {:induction false} RelSegsClimbsAndDescends(bs: seq<string>, ts: seq<string>, rooted: bool)
    requires IsNormal(bs, rooted) && IsNormal(ts, rooted) && RelSegs(bs, ts).Some?
    ensures NormalizeFrom(bs, RelSegs(bs, ts).value, rooted) == ts
  {
    var k := CommonPrefix(bs, ts);
    assert bs[..k] + bs[k..] == bs;
    assert ts[..k] + ts[k..] == ts;
    NormalizeConcat(bs, Repeat("..", |bs| - k), ts[k..], rooted);
    if k < |bs| {
      NormalTailNoDotDot(bs, rooted, k);
      NormalizePops(bs[..k], bs[k..], rooted);
    } else {
      assert bs[..k] == bs;
    }
    NormalizeKeepsNormal(ts[..k], ts[k..], rooted);
  }

  /** The same when the target cleaned to ".": Go keeps it as an element and
      cleaning then removes it. */
  lemma RelSegsToDot(bs: seq<string>)
    requires IsNormal(bs, false) && RelSegs(bs, ["."]).Some?
    ensures NormalizeFrom(bs, RelSegs(bs, ["."]).value, false) == []
  {
    var k := CommonPrefix(bs, ["."]);
    assert k == 0;
    NormalizeConcat(bs, Repeat("..", |bs|), ["."], false);
    if |bs| > 0 {
      NormalTailNoDotDot(bs, false, 0);
      assert bs[0..] == bs && [] + bs == bs;
      NormalizePops([], bs, false);
    }
    assert NormalizeFrom([], ["."], false) == NormalizeFrom([], [], false);
  }

  /** The elements RelSegs answers with are non-empty and separator-free. */
  lemma RelSegsSepFree(bs: seq<string>, ts: seq<string>, rooted: bool)
    requires IsNormal(bs, rooted) && (IsNormal(ts, rooted) || ts == ["."])
    requires RelSegs(bs, ts).Some?
    ensures forall j :: 0 <= j < |RelSegs(bs, ts).value| ==>
      Sep !in RelSegs(bs, ts).value[j] && RelSegs(bs, ts).value[j] != ""
  {
    var k := CommonPrefix(bs, ts);
    var m := |bs| - k;
    var up := Repeat("..", m);
    var down := ts[k..];
    var segs := up + down;
    assert RelSegs(bs, ts) == Some(segs);
    forall j | 0 <= j < |down|
      ensures Sep !in down[j] && down[j] != ""
    {
      assert down[j] == ts[k + j];
    }
    forall j | 0 <= j < |segs|
      ensures Sep !in segs[j] && segs[j] != ""
    {
      if j < m {
        assert segs[j] == up[j];
      } else {
        assert segs[j] == down[j - m];
      }
    }
  }

  /** RelSegs starts with ".." when the base leaves the shared part, and is
      otherwise the target's remaining elements, never none of them. */
  lemma RelSegsHead(bs: seq<string>, ts: seq<string>)
    requires bs != ts && RelSegs(bs, ts).Some?
    ensures |RelSegs(bs, ts).value| > 0
    ensures CommonPrefix(bs, ts) < |bs| ==> RelSegs(bs, ts).value[0] == ".."
    ensures CommonPrefix(bs, ts) == |bs| ==> RelSegs(bs, ts).value == ts[|bs|..]
  {
    var k := CommonPrefix(bs, ts);
    var m := |bs| - k;
    var up := Repeat("..", m);
    var down := ts[k..];
    assert RelSegs(bs, ts) == Some(up + down);
    if m == 0 {
      assert up + down == down;
      assert bs == bs[..k] == ts[..k];
    } else {
      assert (up + down)[0] == up[0];
    }
  }

  /** RelSegs is never empty when the two lists differ, and its first element
      is ".." or the target's first element past the shared part. */
  lemma RelSegsShape(bs: seq<string>, ts: seq<string>, rooted: bool)
    requires IsNormal(bs, rooted) && (IsNormal(ts, rooted) || ts == ["."]) && bs != ts
    requires RelSegs(bs, ts).Some?
    ensures var segs := RelSegs(bs, ts).value;
      |segs| > 0 && SegmentsSepFree(segs) && segs[0] != "" && Sep !in segs[0]
    ensures CommonPrefix(bs, ts) < |bs| ==> RelSegs(bs, ts).value[0] == ".."
    ensures CommonPrefix(bs, ts) == |bs| ==> RelSegs(bs, ts).value == ts[|bs|..]
  {
    RelSegsSepFree(bs, ts, rooted);
    RelSegsHead(bs, ts);
  }

  /** Rel away from its "." answer, in terms of element lists. */
  lemma RelUnfold(b: Path, t: Path)
    requires Rel(b, t).Some? && Clean(t) != Clean(b)
    ensures IsRooted(t) == IsRooted(b)
    ensures Names(b) != Elements(Clean(t))
    ensures RelSegs(Names(b), Elements(Clean(t))).Some?
    ensures Rel(b, t).value == JoinSegs(RelSegs(Names(b), Elements(Clean(t))).value)
  {
    RelComparesNames(b, t);
    if Names(b) == Elements(Clean(t)) {
      CleanIsRender(b);
      CleanIsRender(t);
    }
  }

  /** What Rel returns, read back through Clean: a relative, non-empty path
      whose elements, cleaned on top of the base's elements, give the target. */
  lemma RelSplit(b: Path, t: Path)
    requires Rel(b, t).Some?
    ensures Rel(b, t).value != "" && !IsRooted(Rel(b, t).value)
    ensures Clean(t) == Render(NormalizeFrom(Names(b), Split(Rel(b, t).value), IsRooted(b)), IsRooted(b))
  {
    var base, targ := Clean(b), Clean(t);
    var rooted := IsRooted(b);
    CleanIsRender(b);
    CleanIsRender(t);
    if targ == base {
      SplitSingle(".");
      assert NormalizeFrom(Names(b), ["."], rooted) == NormalizeFrom(Names(b), [], rooted);
    } else {
      RelUnfold(b, t);
      RelComparesNames(b, t);
      var bs := Names(b);
      var ts := Elements(targ);
      var segs := RelSegs(bs, ts).value;
      RelSegsShape(bs, ts, rooted);
      SplitJoin(segs);
      JoinSegsHead(segs);
      if targ == "." {
        RelSegsToDot(bs);
      } else {
        RelSegsClimbsAndDescends(bs, ts, rooted);
      }
    }
  }

  /** Rel's defining property (its Go documentation): joining the result onto
      the base gives the target, cleaned. */
  lemma RelJoinRoundTrip(b: Path, t: Path)
    requires Rel(b, t).Some?
    ensures Join([b, Rel(b, t).value]) == Clean(t)
  {
    var r := Rel(b, t).value;
    RelSplit(b, t);
    assert [b, r][1..] == [r];
    if b == "" {
      assert FirstNonEmpty([b, r]) == 1;
      assert JoinSegs([r]) == r;
      assert Names(b) == [] by {
        assert Split(b) == [""];
        assert NormalizeFrom([], [""], false) == NormalizeFrom([], [], false);
      }
      CleanIsRender(r);
    } else {
      assert JoinSegs([b, r]) == b + [Sep] + r;
      NamesAppend(b, r);
    }
  }

  /** Every element of `segs` is a plain name (no "", ".", ".." or separator). */
  predicate AllNames(segs: seq<string>)
  {
    forall k :: 0 <= k < |segs| ==> IsName(segs[k])
  }

  /** When RelSegs does not start by climbing, the base's elements are a
      prefix of the target's and the rest are plain names. */
  lemma RelSegsDescends(bs: seq<string>, ts: seq<string>, rooted: bool)
    requires IsNormal(bs, rooted) && IsNormal(ts, rooted) && bs != ts
    requires RelSegs(bs, ts).Some? && RelSegs(bs, ts).value[0] != ".."
    ensures AllNames(RelSegs(bs, ts).value) && ts == bs + RelSegs(bs, ts).value
  {
    RelSegsHead(bs, ts);
    var k := CommonPrefix(bs, ts);
    var segs := RelSegs(bs, ts).value;
    assert k == |bs| && segs == ts[k..];
    assert ts == bs + segs by {
      assert bs == bs[..k] == ts[..k];
      assert ts[..k] + ts[k..] == ts;
    }
    assert segs[0] == ts[k];
    NormalTailNoDotDot(ts, rooted, k);
    forall j | 0 <= j < |segs|
      ensures IsName(segs[j])
    {
      assert segs[j] == ts[k + j];
    }
  }

  /** A relative path Rel returns that does not begin with the two characters
      ".." leads down from the base: either it is "." and the two paths clean
      to the same path, or its elements are plain names and the target's
      cleaned elements are the base's followed by them. */
  lemma AcceptedRelDescends(b: Path, t: Path)
    requires Rel(b, t).Some? && !HasPrefix(Rel(b, t).value, "..")
    ensures var r := Rel(b, t).value;
      (r == "." && Clean(t) == Clean(b)) ||
      (AllNames(Split(r)) && IsRooted(t) == IsRooted(b) && Names(t) == Names(b) + Split(r))
  {
    var base, targ := Clean(b), Clean(t);
    if targ != base {
      RelUnfold(b, t);
      RelComparesNames(b, t);
      var rooted := IsRooted(b);
      var bs := Names(b);
      var ts := Elements(targ);
      RelSegsShape(bs, ts, rooted);
      var segs := RelSegs(bs, ts).value;
      JoinSegsStartsWith(segs);
      assert segs[0] != "..";
      assert targ != "." by {
        if targ == "." {
          CleanIsRender(b);
        }
      }
      RelSegsDescends(bs, ts, rooted);
      SplitJoin(segs);
    }
  }

  lemma {:induction false} SplitLastNonEmpty(q: string)
    requires |q| > 0 && q[|q| - 1] != Sep
    ensures Split(q)[|Split(q)| - 1] != ""
  {
    if q[0] == Sep {
      SplitLastNonEmpty(q[1..]);
    } else if |q| > 1 {
      SplitLastNonEmpty(q[1..]);
    }
  }

  /** Base is a single element: "/" for a path of separators only, and
      otherwise a non-empty string without a separator. */
  lemma BaseIsOneElement(p: Path)
    ensures Base(p) == [Sep] || (Base(p) != "" && Sep !in Base(p))
  {
    var q := TrimTrailingSeps(p);
    if p != "" && q != "" {
      SplitLastNonEmpty(q);
    }
  }

  /** Directories in front of a plain last element never change Base. */
  lemma BaseOfChild(d: Path, n: string)
    requires n != "" && Sep !in n
    ensures Base(d + [Sep] + n) == n && Base(n) == n
  {
    SplitSingle(n);
    SplitAppend(d, n);
    var p := d + [Sep] + n;
    assert p[|p| - 1] == n[|n| - 1];
  }

  lemma {:induction false} JoinSegsSnoc(init: seq<string>, last: string)
    requires |init| > 0
    ensures JoinSegs(init + [last]) == JoinSegs(init) + [Sep] + last
    decreases |init|
  {
    if |init| == 1 {
      assert init + [last] == [init[0], last];
      assert [init[0], last][1..] == [last];
    } else {
      assert (init + [last])[1..] == init[1..] + [last];
      JoinSegsSnoc(init[1..], last);
    }
  }

  /** A clean path with more than one element is the clean path of all but
      its last element, a separator, and the last element. */
  lemma RenderSnoc(init: seq<string>, last: string, rooted: bool)
    requires |init| > 0 && IsNormal(init + [last], rooted)
    ensures IsNormal(init, rooted)
    ensures Render(init + [last], rooted) == Render(init, rooted) + [Sep] + last
  {
    assert forall k :: 0 <= k < |init| ==> init[k] == (init + [last])[k];
    JoinSegsSnoc(init, last);
  }

  lemma {:induction false} DirPrefixOfLast(a: string, b: string)
    requires Sep !in b
    ensures DirPrefix(a + [Sep] + b) == a + [Sep]
    decreases |b|
  {
    if |b| > 0 {
      assert (a + [Sep] + b)[..|a + [Sep] + b| - 1] == a + [Sep] + b[..|b| - 1];
      DirPrefixOfLast(a, b[..|b| - 1]);
    }
  }

  lemma {:induction false} DirPrefixOfName(b: string)
    requires Sep !in b
    ensures DirPrefix(b) == ""
    decreases |b|
  {
    if |b| > 0 {
      DirPrefixOfName(b[..|b| - 1]);
    }
  }

  /** Dir of a clean path drops its last element and keeps whether it is
      rooted (Dir("/a/b") == "/a", Dir("/a") == "/", Dir("a") == "."). */
  lemma DirOfRender(names: seq<string>, rooted: bool)
    requires IsNormal(names, rooted) && |names| > 0
    ensures IsRooted(Dir(Render(names, rooted))) == rooted
    ensures Names(Dir(Render(names, rooted))) == names[..|names| - 1]
  {
    var n := |names|;
    var last := names[n - 1];
    if n == 1 {
      if rooted {
        assert Render(names, rooted) == "" + [Sep] + last;
        DirPrefixOfLast("", last);
        NamesOfRender([], true);
        assert Render([], true) == "" + [Sep];
        assert Dir(Render(names, rooted)) == Render([], true);
      } else {
        DirPrefixOfName(last);
        NamesOfRender([], false);
      }
    } else {
      var init := names[..n - 1];
      assert init + [last] == names;
      RenderSnoc(init, last, rooted);
      DirPrefixOfLast(Render(init, rooted), last);
      NamesWithTrailingSep(init, rooted);
      assert Dir(Render(names, rooted)) == Render(init, rooted);
      NamesOfRender(init, rooted);
    }
  }

  lemma NamesWithTrailingSep(names: seq<string>, rooted: bool)
    requires IsNormal(names, rooted) && |names| > 0
    ensures var q := Render(names, rooted) + [Sep];
      IsRooted(q) == rooted && Clean(q) == Render(names, rooted)
  {
    var r := Render(names, rooted);
    assert r + [Sep] == r + [Sep] + "";
    NamesAppend(r, "");
    NamesOfRender(names, rooted);
    assert Split("") == [""];
    assert NormalizeFrom(names, [""], rooted) == names;
  }

  /** Dir of a cleaned path: the cleaned path's elements without the last
      one, with the same root. */
  lemma DirOfClean(p: Path)
    requires |Names(p)| > 0
    ensures IsRooted(Dir(Clean(p))) == IsRooted(p)
    ensures Names(Dir(Clean(p))) == Names(p)[..|Names(p)| - 1]
  {
    DirOfRender(Names(p), IsRooted(p));
  }

  lemma NormalAppendNames(names: seq<string>, extra: seq<string>, rooted: bool)
    requires IsNormal(names, rooted) && AllNames(extra)
    ensures IsNormal(names + extra, rooted)
  {
    var all := names + extra;
    forall k | 0 <= k < |all|
      ensures k < |names| ==> all[k] == names[k] && all[..k] == names[..k]
      ensures k >= |names| ==> IsName(all[k])
    {
      if k >= |names| {
        assert all[k] == extra[k - |names|];
      }
    }
  }

  /** The part of a snapshot destination before the relative path. */
  function SnapshotDir(base: Path, stamp: string): Path
  {
    if base == "" then stamp else base + [Sep] + stamp
  }

  lemma SnapshotDirNames(base: Path, stamp: string)
    requires IsName(stamp)
    ensures SnapshotDir(base, stamp) != ""
    ensures IsRooted(SnapshotDir(base, stamp)) == IsRooted(base)
    ensures Names(SnapshotDir(base, stamp)) == Names(base) + [stamp]
  {
    SplitSingle(stamp);
    if base == "" {
      assert Split(base) == [""];
      assert NormalizeFrom([], [""], false) == NormalizeFrom([], [], false);
      assert NormalizeFrom([], [stamp], false) == NormalizeFrom([stamp], [], false);
    } else {
      NamesAppend(base, stamp);
      assert NormalizeFrom(Names(base), [stamp], IsRooted(base)) == NormalizeFrom(Names(base) + [stamp], [], IsRooted(base));
    }
  }

  lemma JoinThree(base: Path, stamp: string, rel: Path)
    requires stamp != ""
    ensures Join([base, stamp, rel]) == Clean(SnapshotDir(base, stamp) + [Sep] + rel)
  {
    var elems := [base, stamp, rel];
    assert [stamp, rel][1..] == [rel];
    assert JoinSegs([stamp, rel]) == stamp + [Sep] + rel;
    if base == "" {
      assert FirstNonEmpty(elems) == 1 && elems[1..] == [stamp, rel];
    } else {
      assert elems[0..] == elems && elems[1..] == [stamp, rel];
      assert base + [Sep] + (stamp + [Sep] + rel) == SnapshotDir(base, stamp) + [Sep] + rel;
    }
  }

  /** The directory of a snapshot destination: every element of the
      destination but the last. When rel is "." that is the base alone; otherwise
      it starts with the base's elements and the stamp. */
  lemma DirOfSnapshotDest(base: Path, stamp: string, rel: Path)
    requires IsName(stamp) && (rel == "." || AllNames(Split(rel)))
    ensures var all := Names(base) + [stamp] + (if rel == "." then [] else Split(rel));
      && IsRooted(Dir(Join([base, stamp, rel]))) == IsRooted(base)
      && Names(Dir(Join([base, stamp, rel]))) == all[..|all| - 1]
  {
    var dest := Join([base, stamp, rel]);
    JoinSnapshotNames(base, stamp, rel);
    JoinThree(base, stamp, rel);
    CleanIdempotent(SnapshotDir(base, stamp) + [Sep] + rel);
    DirOfClean(dest);
  }

  /** The elements of a snapshot destination Join([base, stamp, rel]): the
      base's, then the stamp, then rel's (none when rel is "."). */
  lemma JoinSnapshotNames(base: Path, stamp: string, rel: Path)
    requires IsName(stamp) && (rel == "." || AllNames(Split(rel)))
    ensures IsRooted(Join([base, stamp, rel])) == IsRooted(base)
    ensures Names(Join([base, stamp, rel])) ==
      Names(base) + [stamp] + (if rel == "." then [] else Split(rel))
  {
    var rooted := IsRooted(base);
    var head := SnapshotDir(base, stamp);
    var relNames := if rel == "." then [] else Split(rel);
    SnapshotDirNames(base, stamp);
    NamesAppend(head, rel);
    if rel == "." {
      SplitSingle(".");
      assert NormalizeFrom(Names(head), ["."], rooted) == NormalizeFrom(Names(head), [], rooted);
    } else {
      NormalAppendNames(Names(head), relNames, rooted);
      NormalizeKeepsNormal(Names(head), relNames, rooted);
    }
    var joined := head + [Sep] + rel;
    JoinThree(base, stamp, rel);
    CleanIsRender(joined);
    NamesOfRender(Names(joined), IsRooted(joined));
  }

  /** Different snapshot names give different destinations for the same
      base and relative path. */
  lemma SnapshotsDiffer(base: Path, s1: string, s2: string, rel: Path)
    requires IsName(s1) && IsName(s2) && s1 != s2
    requires rel == "." || AllNames(Split(rel))
    ensures Names(Join([base, s1, rel])) != Names(Join([base, s2, rel]))
    ensures Join([base, s1, rel]) != Join([base, s2, rel])
  {
    JoinSnapshotNames(base, s1, rel);
    JoinSnapshotNames(base, s2, rel);
    var n := |Names(base)|;
    assert Names(Join([base, s1, rel]))[n] == s1;
    assert Names(Join([base, s2, rel]))[n] == s2;
  }

  /** Relative to a (non-empty) directory, a plain child name is itself. */
  lemma RelToChild(d: Path, n: string)
    requires d != "" && IsName(n)
    ensures Rel(d, d + [Sep] + n) == Some(n)
  {
    var rooted := IsRooted(d);
    var t := d + [Sep] + n;
    var bs := Names(d);
    var ts := bs + [n];
    NamesOfChild(d, n);
    RelComparesNames(d, t);
    assert Clean(t) != Clean(d) by {
      CleanIsRender(d);
      CleanIsRender(t);
      NamesOfRender(bs, rooted);
      NamesOfRender(ts, rooted);
      assert ts != bs;
    }
    var k := CommonPrefix(bs, ts);
    assert ts[..|bs|] == bs;
    assert k == |bs|;
    assert ts[k..] == [n];
    assert Repeat("..", 0) + [n] == [n];
    assert RelSegs(bs, ts) == Some([n]);
  }

  /** Appending a plain name appends one element. */
  lemma NamesOfChild(d: Path, n: string)
    requires d != "" && IsName(n)
    ensures Names(d + [Sep] + n) == Names(d) + [n]
    ensures IsRooted(d + [Sep] + n) == IsRooted(d)
    ensures IsNormal(Names(d) + [n], IsRooted(d))
  {
    var rooted := IsRooted(d);
    var bs := Names(d);
    SplitSingle(n);
    NamesAppend(d, n);
    assert NormalizeFrom(bs, [n], rooted) == NormalizeFrom(bs + [n], [], rooted);
    NormalAppendNames(bs, [n], rooted);
  }
}
