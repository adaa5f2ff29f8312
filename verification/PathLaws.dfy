/** What paths are, byte by byte: which are accepted, and where a joined one lies. */
module PathLaws {
  import opened Bytes
  import opened Paths

  // ---------------------------------------------------------------- joining

  lemma {:induction false} SegmentsConcat(a: Text, b: Text)
    ensures Segments(a + [SLASH] + b) == Segments(a) + Segments(b)
    decreases |a|
  {
    hide IndexOf, Segments;
    var path, n := a + [SLASH] + b, IndexOf(a, SLASH);
    assert path[..n] == a[..n];
    FirstSlash(path, n);
    if n == |a| {
      assert a[..n] == a && path[n + 1..] == b;
      OneSegment(a);
    } else {
      var rest := a[n + 1..];
      assert path[n + 1..] == rest + [SLASH] + b;
      FirstSlash(a, n);
      SegmentsConcat(rest, b);
      assert [a[..n]] + (Segments(rest) + Segments(b)) == [a[..n]] + Segments(rest) + Segments(b);
    }
  }

  /** The base and what has been added to it, with a slash between them if the base does not end in one. */
  function Extended(base: Text, path: Text): Text {
    if base != [] && base[|base| - 1] == 0x2F then base + path else base + [0x2F] + path
  }

  /** The segments of a base directory, without the empty one after a slash at its end. */
  function BaseSegments(base: Text): seq<Text> {
    if base != [] && base[|base| - 1] == 0x2F then Segments(base)[..|Segments(base)| - 1] else Segments(base)
  }

  /** Walking a sequence of segments is walking its parts one after the other. */
  lemma {:induction false} WalkConcat(a: seq<Text>, b: seq<Text>, at: seq<Text>)
    ensures Walk(a + b, at) == match Walk(a, at) { case None => None case Some(d) => Walk(b, d) }
  {
    if a == [] {
      assert a + b == b;
    } else {
      var rest := a[1..];
      assert (a + b)[1..] == rest + b && (a + b)[0] == a[0];
      if a[0] == [] || a[0] == [DOT] {
        WalkConcat(rest, b, at);
      } else if a[0] == [DOT, DOT] {
        if at != [] {
          WalkConcat(rest, b, at[..|at| - 1]);
        }
      } else {
        WalkConcat(rest, b, at + [a[0]]);
      }
    }
  }

  /**
   * `joined` is `path` below `base`: as bytes it continues the base; as segments
   * it is those of both; and wherever the base leads, it leads on from there as
   * `path` says.
   */
  ghost predicate Below(base: Text, path: Text, joined: Text) {
    && base <= joined && joined == Extended(base, path)
    && Segments(joined) == BaseSegments(base) + Segments(path)
    && forall at, dir: seq<Text> :: Walk(Segments(base), at) == Some(dir) ==>
         Walk(Segments(joined), at) == Walk(Segments(path), dir)
  }

  lemma {:induction false} ExtendedIsBelow(base: Text, path: Text)
    ensures Below(base, path, Extended(base, path))
  {
    hide Segments, Walk;
    var joined := Extended(base, path);
    if base != [] && base[|base| - 1] == 0x2F {
      var dir := base[..|base| - 1];
      assert base == dir + [SLASH] + [] && joined == dir + [SLASH] + path;
      SegmentsConcat(dir, []);
      OneSegment([]);
      SegmentsConcat(dir, path);
      assert BaseSegments(base) == Segments(dir);
    } else {
      SegmentsConcat(base, path);
    }
    forall at, dir: seq<Text> | Walk(Segments(base), at) == Some(dir)
      ensures Walk(Segments(joined), at) == Walk(Segments(path), dir)
    {
      WalkConcat(BaseSegments(base), Segments(path), at);
      if BaseSegments(base) != Segments(base) {
        assert Segments(base) == BaseSegments(base) + [[]];
        WalkConcat(BaseSegments(base), [[]], at);
        NowhereFurther(dir);
        match Walk(BaseSegments(base), at) {
          case None =>
          case Some(d) => NowhereFurther(d);
        }
      }
    }
  }

  lemma {:induction false} NowhereFurther(at: seq<Text>)
    ensures Walk([[]], at) == Some(at)
  {
    assert Walk([], at) == Some(at);
  }

  /** A path is joined to the base exactly when it is accepted and there is room, and then it lies below it. */
  lemma {:induction false} JoinedIsBelow(base: Text, path: Text)
    requires path != []
    ensures JoinRelativePath(PATH_CAP, base, path) ==
      if ValidRelativePath(path) && |Extended(base, path)| < 4096 then Some(Extended(base, path)) else None
    ensures Below(base, path, Extended(base, path))
  {
    hide Below, ValidRelativePath;
    ExtendedIsBelow(base, path);
  }

  /** A file name leads one step down. */
  lemma {:induction false} NameLeadsDown(name: Text, at: seq<Text>)
    requires ValidRelativePath(name) && 0x2F !in name
    ensures Walk(Segments(name), at) == Some(at + [name])
  {
    hide Segments, GoodSegments, Walk;
    OneSegment(name);
    WalkGoodSegments([name], at);
  }

  // ---------------------------------------------------------------- what is accepted

  predicate OccursAt(s: Text, t: Text, k: nat) {
    k <= |s| && t <= s[k..]
  }

  /** t stands somewhere in s. */
  predicate Contains(s: Text, t: Text) {
    exists k | 0 <= k <= |s| :: OccursAt(s, t, k)
  }

  /** `fs_validate_file_name` accepts one segment without backslash and without two dots in a row. */
  lemma {:induction false} NamesAccepted(name: Text)
    ensures ValidFileName(name) <==>
      name != [] && !Contains(name, [0x2F]) && !Contains(name, [0x5C]) && !Contains(name, [0x2E, 0x2E])
    ensures ValidFileName(name) ==> Segments(name) == [name]
  {
    hide Segments, Contains;
    ContainsOne(name, 0x2F);
    ContainsOne(name, 0x5C);
    ContainsTwo(name, 0x2E, 0x2E);
    if 0x2F !in name {
      OneSegment(name);
    }
  }

  lemma {:induction false} ContainsOne(s: Text, b: byte)
    ensures Contains(s, [b]) <==> b in s
  {
    if b in s {
      var k :| 0 <= k < |s| && s[k] == b;
      assert s[k..][0] == b;
      assert OccursAt(s, [b], k);
    }
    if k: nat :| k <= |s| && OccursAt(s, [b], k) {
      assert s[k] == s[k..][0];
    }
  }

  lemma {:induction false} ContainsTwo(s: Text, b: byte, c: byte)
    ensures Contains(s, [b, c]) <==> exists k | 0 <= k < |s| - 1 :: s[k] == b && s[k + 1] == c
  {
    if k: nat :| k < |s| - 1 && s[k] == b && s[k + 1] == c {
      assert s[k..][0] == b && s[k..][1] == c;
      assert OccursAt(s, [b, c], k);
    }
    if k: nat :| k <= |s| && OccursAt(s, [b, c], k) {
      assert s[k] == s[k..][0] && s[k + 1] == s[k..][1];
    }
  }

  /** The path between two slashes; one at its end is not doubled. */
  function Framed(path: Text): Text {
    [0x2F] + (if path != [] && path[|path| - 1] == 0x2F then path[..|path| - 1] else path) + [0x2F]
  }

  /** Nothing, one dot or two dots between two slashes that follow each other. */
  predicate HasBadStep(framed: Text) {
    Contains(framed, [0x2F, 0x2F]) || Contains(framed, [0x2F, 0x2E, 0x2F]) || Contains(framed, [0x2F, 0x2E, 0x2E, 0x2F])
  }

  /** `fs_validate_relative_path` accepts what has no backslash and no step that is empty or made of dots. */
  lemma {:induction false} PathsAccepted(path: Text)
    ensures ValidRelativePath(path) <==> path != [] && !Contains(path, [0x5C]) && !HasBadStep(Framed(path))
  {
    hide Contains, HasBadStep, Framed, Segments, GoodSegments;
    ContainsOne(path, 0x5C);
    if path != [] {
      GoodStepsOnly(path);
    }
  }

  lemma {:induction false} GoodStepsOnly(path: Text)
    requires path != []
    ensures GoodSegments(Segments(path)) <==> !HasBadStep(Framed(path))
    decreases |path|
  {
    hide Segments, GoodSegments, HasBadStep, Contains, IndexOf, Framed;
    var n := IndexOf(path, SLASH);
    FirstSegment(path);
    OneStep(path[..n]);
    var first := [0x2F] + path[..n] + [0x2F];
    if n >= |path| - 1 {
      EmptyPathSegments();
      assert Framed(path) == first by {
        FramedOne(path, n);
      }
      assert n < |path| ==> path[n + 1..] == [];
      assert n == |path| ==> path[..n] == path;
    } else {
      var rest := path[n + 1..];
      GoodStepsOnly(rest);
      FramedCons(path, n);
      TwoSteps(path[..n], Framed(rest)[1..]);
    }
  }

  lemma {:induction false} FramedOne(path: Text, n: nat)
    requires n <= |path| <= n + 1 && 0x2F !in path[..n] && (n < |path| ==> path[n] == 0x2F)
    ensures Framed(path) == [0x2F] + path[..n] + [0x2F]
  {
    if n == |path| {
      assert path[..n] == path;
      assert path != [] ==> path[|path| - 1] in path;
    }
  }

  lemma {:induction false} FramedCons(path: Text, n: nat)
    requires n + 1 < |path| && path[n] == 0x2F
    ensures Framed(path[n + 1..]) == [0x2F] + Framed(path[n + 1..])[1..]
    ensures Framed(path) == [0x2F] + path[..n] + [0x2F] + Framed(path[n + 1..])[1..]
  {
    var rest := path[n + 1..];
    assert path == path[..n] + [0x2F] + rest && path[|path| - 1] == rest[|rest| - 1];
    if rest[|rest| - 1] == 0x2F {
      assert path[..|path| - 1] == path[..n] + [0x2F] + rest[..|rest| - 1];
    }
  }

  /** One step between its slashes. */
  lemma {:induction false} OneStep(s: Text)
    requires 0x2F !in s
    ensures HasBadStep([0x2F] + s + [0x2F]) <==> !GoodSegment(s)
  {
    hide Contains;
    OnlyStep(s, []);
    OnlyStep(s, [0x2E]);
    OnlyStep(s, [0x2E, 0x2E]);
    assert [0x2F] + [] + [0x2F] == [0x2F, 0x2F] && [0x2F] + [0x2E] + [0x2F] == [0x2F, 0x2E, 0x2F];
    assert [0x2F] + [0x2E, 0x2E] + [0x2F] == [0x2F, 0x2E, 0x2E, 0x2F];
  }

  lemma {:induction false} OnlyStep(s: Text, t: Text)
    requires 0x2F !in s && 0x2F !in t
    ensures Contains([0x2F] + s + [0x2F], [0x2F] + t + [0x2F]) <==> s == t
  {
    var whole, part := [0x2F] + s + [0x2F], [0x2F] + t + [0x2F];
    if s == t {
      assert whole[0..] == part;
      assert OccursAt(whole, part, 0);
    }
    if k: nat :| k <= |whole| && OccursAt(whole, part, k) {
      assert whole[k] == whole[k..][0] == part[0];
      assert k == 0;
      assert whole[0..] == whole;
      SameStep(s, t, []);
    }
  }

  /** A step between slashes, at the start of a text that starts with another one, is that one. */
  lemma {:induction false} SameStep(s: Text, t: Text, more: Text)
    requires 0x2F !in s && 0x2F !in t
    requires [0x2F] + t + [0x2F] <= [0x2F] + s + [0x2F] + more
    ensures s == t
  {
    var whole, part := [0x2F] + s + [0x2F] + more, [0x2F] + t + [0x2F];
    assert forall j | 0 <= j < |part| :: whole[j] == part[j];
    IndexOfIs(whole[1..], 0x2F, |s|);
    IndexOfIs(whole[1..], 0x2F, |t|);
    assert whole[1..|s| + 1] == s && part[1..|t| + 1] == t;
  }

  /** What stands between two slashes that follow each other stands in one of two parts that share a slash. */
  lemma {:induction false} TwoSteps(s: Text, more: Text)
    requires 0x2F !in s
    ensures HasBadStep([0x2F] + s + [0x2F] + more) <==> HasBadStep([0x2F] + s + [0x2F]) || HasBadStep([0x2F] + more)
  {
    hide Contains;
    StepInOne(s, more, []);
    StepInOne(s, more, [0x2E]);
    StepInOne(s, more, [0x2E, 0x2E]);
    assert [0x2F] + [] + [0x2F] == [0x2F, 0x2F] && [0x2F] + [0x2E] + [0x2F] == [0x2F, 0x2E, 0x2F];
    assert [0x2F] + [0x2E, 0x2E] + [0x2F] == [0x2F, 0x2E, 0x2E, 0x2F];
  }

  lemma {:induction false} StepInOne(s: Text, more: Text, t: Text)
    requires 0x2F !in s && 0x2F !in t
    ensures var first, part := [0x2F] + s + [0x2F], [0x2F] + t + [0x2F];
      Contains(first + more, part) <==> Contains(first, part) || Contains([0x2F] + more, part)
  {
    var first, part := [0x2F] + s + [0x2F], [0x2F] + t + [0x2F];
    var whole, second := first + more, [0x2F] + more;
    var n := |s| + 1;
    assert whole == [0x2F] + s + second;
    InWhole(first, more, part);
    InWhole([0x2F] + s, second, part);
    if k: nat :| k <= |whole| && OccursAt(whole, part, k) {
      assert whole[k] == whole[k..][0] == part[0];
      if k >= n {
        assert whole[k..] == second[k - n..];
        assert OccursAt(second, part, k - n);
      } else {
        assert k == 0;
        assert whole[0..] == whole;
        SameStep(s, t, more);
        assert first[0..] == part;
        assert OccursAt(first, part, 0);
      }
    }
  }

  lemma {:induction false} InWhole(a: Text, b: Text, t: Text)
    ensures Contains(a, t) || Contains(b, t) ==> Contains(a + b, t)
  {
    if k: nat :| k <= |a| && OccursAt(a, t, k) {
      assert (a + b)[k..] == a[k..] + b;
      assert OccursAt(a + b, t, k);
    }
    if k: nat :| k <= |b| && OccursAt(b, t, k) {
      assert (a + b)[|a| + k..] == b[k..];
      assert OccursAt(a + b, t, |a| + k);
    }
  }

  // ---------------------------------------------------------------- temporary names

  /** The number that decimal digits stand for, read from the left. */
  function Number(digits: Text, before: nat): int {
    if digits == [] then before
    else
      var v := 10 * before + (digits[0] as int - 0x30);
      if v < 0 then -1 else Number(digits[1..], v)
  }

  lemma {:induction false} NumberSnoc(digits: Text, before: nat, d: byte)
    requires forall b <- digits :: 0x30 <= b <= 0x39
    requires 0x30 <= d <= 0x39
    ensures Number(digits, before) >= 0
    ensures Number(digits + [d], before) == 10 * Number(digits, before) + (d as int - 0x30)
    decreases |digits|
  {
    if digits == [] {
      assert [d][1..] == [];
    } else {
      assert digits[0] in digits && forall b <- digits[1..] :: b in digits;
      NumberSnoc(digits[1..], 10 * before + (digits[0] as int - 0x30), d);
      assert (digits + [d])[1..] == digits[1..] + [d];
    }
  }

  /** Digits that stand for n, without a zero in front. */
  lemma {:induction false} DecimalIs(n: nat)
    ensures Number(Decimal(n), 0) == n
    ensures n > 0 ==> Decimal(n)[0] != 0x30
    ensures n < 10 ==> Decimal(n) == [0x30 + n]
  {
    if n >= 10 {
      DecimalIs(n / 10);
      NumberSnoc(Decimal(n / 10), 0, 0x30 + n % 10);
    } else {
      assert [0x30 + n][1..] == [];
    }
  }

  /** The path, ".tmp.", the process number, a dot and the attempt. */
  lemma {:induction false} TempNameIs(path: Text, pid: nat, attempt: nat)
    requires attempt < 10
    ensures TempName(path, pid, attempt)
         == path + [0x2E, 0x74, 0x6D, 0x70, 0x2E] + Decimal(pid) + [0x2E, 0x30 + attempt]
    ensures Number(Decimal(pid), 0) == pid
  {
    DecimalIs(pid);
    DecimalIs(attempt);
  }
}
