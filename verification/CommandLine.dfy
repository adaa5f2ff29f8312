/** The argument parser of src/cli.c. */
module CommandLine {
  import opened Bytes
  import opened Wire

  const DASH: byte := 0x2D
  const FLAG_C: byte := 0x63
  const FLAG_D: byte := 0x64
  const FLAG_G: byte := 0x67
  const FLAG_H: byte := 0x68
  const FLAG_I: byte := 0x69
  const FLAG_M: byte := 0x6D
  const FLAG_O: byte := 0x6F
  const FLAG_P: byte := 0x70

  /** "status", "stop" and "127.0.0.1" */
  const STATUS: Text := [0x73, 0x74, 0x61, 0x74, 0x75, 0x73]
  const STOP: Text := [0x73, 0x74, 0x6F, 0x70]
  const LOCALHOST: Text := [0x31, 0x32, 0x37, 0x2E, 0x30, 0x2E, 0x30, 0x2E, 0x31]
  const DEFAULT_PORT: nat := 8888

  datatype Mode = ServerMode | ClientMode | StatusMode | StopMode

  datatype Opt = Opt(
    mode: Mode, path: Option<Text>, remotePath: Option<Text>, outputPath: Option<Text>, message: Option<Text>,
    ip: Text, port: nat, msgType: nat)

  datatype Outcome = ParseOk(opt: Opt) | ParseHelp | ParseErr

  /** A flag and its value. */
  datatype Group = Group(flag: byte, value: Text)

  // ---------------------------------------------------------------- what the arguments mean

  /** The values given with a flag, in order. */
  function Values(groups: seq<Group>, flag: byte): (r: seq<Text>) {
    if groups == [] then []
    else
      var last := groups[|groups| - 1];
      Values(groups[..|groups| - 1], flag) + if last.flag == flag then [last.value] else []
  }

  predicate Known(flag: byte) {
    flag in {FLAG_C, FLAG_D, FLAG_G, FLAG_I, FLAG_M, FLAG_O, FLAG_P}
  }

  function Actions(groups: seq<Group>): nat {
    |Values(groups, FLAG_C)| + |Values(groups, FLAG_G)| + |Values(groups, FLAG_M)|
  }

  function Only(values: seq<Text>): Option<Text> {
    if values == [] then None else Some(values[|values| - 1])
  }

  function PortOf(groups: seq<Group>, port: Text -> Option<nat>): nat {
    var p := Values(groups, FLAG_P);
    if p == [] || port(p[|p| - 1]).None? then DEFAULT_PORT else port(p[|p| - 1]).value
  }

  /** Every group is of a flag there is, at most one of a kind is given where one is, and every port is one. */
  predicate WellUsed(groups: seq<Group>, port: Text -> Option<nat>) {
    && (forall g <- groups :: Known(g.flag))
    && (forall v <- Values(groups, FLAG_P) :: port(v).Some?)
    && |Values(groups, FLAG_O)| <= 1
    && |Values(groups, FLAG_D)| + Actions(groups) == 1
    && (Values(groups, FLAG_O) != [] ==> Values(groups, FLAG_G) != [])
    && (Values(groups, FLAG_I) != [] ==> Values(groups, FLAG_D) == [])
  }

  /**
   * The meaning of a command line of groups, without a word about their order:
   * a control command stands alone; otherwise exactly one of server and the
   * three client actions is chosen.
   */
  function Meaning(control: Option<Mode>, groups: seq<Group>, port: Text -> Option<nat>): (r: Outcome)
    ensures !r.ParseHelp?
  {
    if control.Some? then
      if groups == [] then ParseOk(Opt(control.value, None, None, None, None, LOCALHOST, DEFAULT_PORT, 0)) else ParseErr
    else if !WellUsed(groups, port) then ParseErr
    else
      var d, c := Values(groups, FLAG_D), Values(groups, FLAG_C);
      var g, m := Values(groups, FLAG_G), Values(groups, FLAG_M);
      ParseOk(Opt(
        if d != [] then ServerMode else ClientMode,
        if d != [] then Only(d) else Only(c),
        Only(g),
        Only(Values(groups, FLAG_O)),
        Only(m),
        match Only(Values(groups, FLAG_I)) { case Some(ip) => ip case None => LOCALHOST },
        PortOf(groups, port),
        if c != [] then SEND_FILE else if g != [] then GET_FILE else if m != [] then TEXT_MESSAGE else 0))
  }

  // ---------------------------------------------------------------- the arguments as groups

  function ControlOf(args: seq<Text>): Option<Mode> {
    if args != [] && args[0] == STATUS then Some(StatusMode)
    else if args != [] && args[0] == STOP then Some(StopMode)
    else None
  }

  function RestOf(args: seq<Text>): seq<Text> {
    if ControlOf(args).Some? then args[1..] else args
  }

  /** A dash and one more character. */
  predicate IsFlag(a: Text) {
    |a| == 2 && a[0] == DASH && a[1] != DASH
  }

  predicate IsHelp(a: Text) {
    a == [DASH, FLAG_H]
  }

  /** Flags and values take turns, and no flag asks for help. */
  predicate Grouped(rest: seq<Text>) {
    |rest| % 2 == 0 && forall k | 0 <= k < |rest| / 2 :: IsFlag(rest[2 * k]) && !IsHelp(rest[2 * k])
  }

  function GroupsOf(rest: seq<Text>): (r: seq<Group>)
    requires Grouped(rest)
    ensures |r| == |rest| / 2
  {
    seq(|rest| / 2, k requires 0 <= k < |rest| / 2 => Group(rest[2 * k][1], rest[2 * k + 1]))
  }

  ghost predicate AsksForHelp(rest: seq<Text>) {
    exists k | 0 <= k && 2 * k < |rest| :: IsHelp(rest[2 * k])
  }

  // ---------------------------------------------------------------- where reading stops

  /** The last client action that was asked for. */
  function LastAction(groups: seq<Group>): Option<byte> {
    if groups == [] then None
    else
      var last := groups[|groups| - 1].flag;
      if last in {FLAG_C, FLAG_G, FLAG_M} then Some(last) else LastAction(groups[..|groups| - 1])
  }

  /** The flag is refused after these groups. A client action is found to be repeated only right after itself. */
  predicate Refuses(control: Option<Mode>, groups: seq<Group>, flag: byte) {
    || !Known(flag)
    || (control.Some? && flag != FLAG_I)
    || (flag == FLAG_D && Values(groups, FLAG_D) != [])
    || (flag in {FLAG_C, FLAG_G, FLAG_M} && LastAction(groups) == Some(flag))
    || (flag == FLAG_O && Values(groups, FLAG_O) != [])
  }

  /** Reading stops with an error at one of the groups. */
  predicate Stops(control: Option<Mode>, groups: seq<Group>, port: Text -> Option<nat>) {
    exists k | 0 <= k < |groups| ::
      Refuses(control, groups[..k], groups[k].flag) || (groups[k].flag == FLAG_P && port(groups[k].value).None?)
  }

  /** Reading comes to the k-th flag, and it asks for help. */
  ghost predicate HelpAt(control: Option<Mode>, rest: seq<Text>, port: Text -> Option<nat>, k: nat) {
    2 * k < |rest| && IsHelp(rest[2 * k]) && Grouped(rest[..2 * k]) && !Stops(control, GroupsOf(rest[..2 * k]), port)
  }

  // ---------------------------------------------------------------- order

  lemma {:induction false} ValuesAreCounted(groups: seq<Group>, flag: byte, v: Text)
    ensures multiset(Values(groups, flag))[v] == multiset(groups)[Group(flag, v)]
  {
    if groups != [] {
      var n := |groups| - 1;
      ValuesAreCounted(groups[..n], flag, v);
      assert groups == groups[..n] + [groups[n]];
      assert multiset(groups) == multiset(groups[..n]) + multiset([groups[n]]);
    }
  }

  lemma {:induction false} SameValues(a: seq<Group>, b: seq<Group>, flag: byte)
    requires multiset(a) == multiset(b)
    ensures multiset(Values(a, flag)) == multiset(Values(b, flag)) && |Values(a, flag)| == |Values(b, flag)|
    ensures |Values(a, flag)| <= 1 ==> Values(a, flag) == Values(b, flag)
  {
    hide Values;
    var x, y := Values(a, flag), Values(b, flag);
    forall v: Text ensures multiset(x)[v] == multiset(y)[v] {
      ValuesAreCounted(a, flag, v);
      ValuesAreCounted(b, flag, v);
    }
    assert multiset(x) == multiset(y);
    assert |multiset(x)| == |x| && |multiset(y)| == |y|;
    if |x| == 1 {
      assert x[0] in multiset(x);
      assert x[0] in multiset(y);
    }
  }

  /** Whether a command line is in order does not depend on its order. */
  lemma {:induction false} SameUse(a: seq<Group>, b: seq<Group>, port: Text -> Option<nat>)
    requires multiset(a) == multiset(b)
    ensures WellUsed(a, port) <==> WellUsed(b, port)
    ensures a == [] <==> b == []
  {
    hide Values;
    SameValues(a, b, FLAG_C);
    SameValues(a, b, FLAG_D);
    SameValues(a, b, FLAG_G);
    SameValues(a, b, FLAG_I);
    SameValues(a, b, FLAG_M);
    SameValues(a, b, FLAG_O);
    SameValues(a, b, FLAG_P);
    SameMembers(a, b);
    SameMembers(Values(a, FLAG_P), Values(b, FLAG_P));
    assert |multiset(a)| == |a| && |multiset(b)| == |b|;
  }

  lemma {:induction false} SameMembers<T>(a: seq<T>, b: seq<T>)
    requires multiset(a) == multiset(b)
    ensures forall x :: x in a <==> x in b
  {
    assert forall x :: x in a <==> x in multiset(a);
    assert forall x :: x in b <==> x in multiset(b);
  }

  /** All ports that are given are one port, and all addresses one address. */
  predicate Agrees(groups: seq<Group>, port: Text -> Option<nat>) {
    && (forall v <- Values(groups, FLAG_P), w <- Values(groups, FLAG_P) :: port(v) == port(w))
    && (forall v <- Values(groups, FLAG_I), w <- Values(groups, FLAG_I) :: v == w)
  }

  lemma {:induction false} AgreeingOrderDoesNotMatter(
    control: Option<Mode>, a: seq<Group>, b: seq<Group>, port: Text -> Option<nat>)
    requires multiset(a) == multiset(b) && (control.Some? || !WellUsed(a, port) || Agrees(a, port))
    ensures Meaning(control, a, port) == Meaning(control, b, port)
  {
    hide Values, Agrees, PortOf, WellUsed, Only;
    SameUse(a, b, port);
    if control.None? && WellUsed(a, port) {
      SameChoices(a, b, port);
      SamePortAndAddress(a, b, port);
    }
  }

  lemma {:induction false} SameChoices(a: seq<Group>, b: seq<Group>, port: Text -> Option<nat>)
    requires multiset(a) == multiset(b) && WellUsed(a, port)
    ensures forall flag | flag in {FLAG_C, FLAG_D, FLAG_G, FLAG_M, FLAG_O} :: Values(a, flag) == Values(b, flag)
  {
    hide Values;
    forall flag | flag in {FLAG_C, FLAG_D, FLAG_G, FLAG_M, FLAG_O} ensures Values(a, flag) == Values(b, flag) {
      SameValues(a, b, flag);
    }
  }

  lemma {:induction false} SamePortAndAddress(a: seq<Group>, b: seq<Group>, port: Text -> Option<nat>)
    requires multiset(a) == multiset(b) && Agrees(a, port)
    ensures PortOf(a, port) == PortOf(b, port) && Only(Values(a, FLAG_I)) == Only(Values(b, FLAG_I))
  {
    hide Values;
    SameValues(a, b, FLAG_I);
    SameValues(a, b, FLAG_P);
    SameMembers(Values(a, FLAG_P), Values(b, FLAG_P));
    SameMembers(Values(a, FLAG_I), Values(b, FLAG_I));
    LastsAreMembers(Values(a, FLAG_P), Values(b, FLAG_P));
    LastsAreMembers(Values(a, FLAG_I), Values(b, FLAG_I));
  }

  lemma {:induction false} LastsAreMembers(x: seq<Text>, y: seq<Text>)
    requires |x| == |y|
    ensures x != [] ==> x[|x| - 1] in x && y[|y| - 1] in y
  {
  }

  lemma {:induction false} GivenAsGroup(groups: seq<Group>, flag: byte, v: Text)
    requires v in Values(groups, flag)
    ensures Group(flag, v) in groups
  {
    hide Values;
    ValuesAreCounted(groups, flag, v);
    assert v in multiset(Values(groups, flag));
    assert Group(flag, v) in multiset(groups);
  }

  /** The same groups with one of them moved to the end, where its value is the one that counts. */
  lemma {:induction false} MoveToEnd(groups: seq<Group>, flag: byte, v: Text) returns (b: seq<Group>)
    requires v in Values(groups, flag)
    ensures multiset(b) == multiset(groups)
    ensures Values(b, flag) != [] && Values(b, flag)[|Values(b, flag)| - 1] == v
  {
    hide Values;
    var g := Group(flag, v);
    GivenAsGroup(groups, flag, v);
    var k :| 0 <= k < |groups| && groups[k] == g;
    var others := groups[..k] + groups[k + 1..];
    b := others + [g];
    assert groups == groups[..k] + [g] + groups[k + 1..];
    OneMoreGroup(others, g, flag);
  }

  /**
   * Exactly when the order of the groups matters: every rearrangement of a
   * command line has the same meaning if and only if it has a control command,
   * or is not well used, or its ports agree and its addresses agree.
   */
  lemma {:induction false} OrderMattersExactly(control: Option<Mode>, a: seq<Group>, port: Text -> Option<nat>)
    ensures (forall b: seq<Group> | multiset(b) == multiset(a) ::
               Meaning(control, b, port) == Meaning(control, a, port))
      <==> control.Some? || !WellUsed(a, port) || Agrees(a, port)
  {
    hide Values, WellUsed, Agrees;
    if control.Some? || !WellUsed(a, port) || Agrees(a, port) {
      forall b: seq<Group> | multiset(b) == multiset(a) ensures Meaning(control, b, port) == Meaning(control, a, port) {
        AgreeingOrderDoesNotMatter(control, a, b, port);
      }
    } else {
      var b := AnotherMeaning(control, a, port);
    }
  }

  /** A rearrangement with another meaning, where the ports or the addresses disagree. */
  lemma {:induction false} AnotherMeaning(control: Option<Mode>, a: seq<Group>, port: Text -> Option<nat>)
    returns (b: seq<Group>)
    requires control.None? && WellUsed(a, port) && !Agrees(a, port)
    ensures multiset(b) == multiset(a) && Meaning(control, b, port) != Meaning(control, a, port)
  {
    hide Values, WellUsed;
    NothingGiven();
    var p, i := Values(a, FLAG_P), Values(a, FLAG_I);
    if v, w :| v in p && w in p && port(v) != port(w) {
      var last := if port(v) != port(p[|p| - 1]) then v else w;
      b := MoveToEnd(a, FLAG_P, last);
      AnotherLast(a, b, port, FLAG_P, last);
    } else {
      var v, w :| v in i && w in i && v != w;
      var last := if v != i[|i| - 1] then v else w;
      b := MoveToEnd(a, FLAG_I, last);
      AnotherLast(a, b, port, FLAG_I, last);
    }
  }

  /** Another port or another address at the end makes another meaning. */
  lemma {:induction false} AnotherLast(
    a: seq<Group>, b: seq<Group>, port: Text -> Option<nat>, flag: byte, last: Text)
    requires WellUsed(a, port) && multiset(b) == multiset(a) && flag in {FLAG_P, FLAG_I}
    requires last in Values(a, flag) && Only(Values(b, flag)) == Some(last)
    requires if flag == FLAG_P then port(last) != port(Only(Values(a, flag)).value)
      else last != Only(Values(a, flag)).value
    ensures Meaning(None, b, port) != Meaning(None, a, port)
  {
    hide Values;
    SameUse(a, b, port);
    SameValues(a, b, FLAG_P);
    SameMembers(Values(a, FLAG_P), Values(b, FLAG_P));
  }

  /** In particular: with -p and -i given once at most, no rearrangement matters. */
  lemma {:induction false} OrderDoesNotMatter(
    control: Option<Mode>, a: seq<Group>, b: seq<Group>, port: Text -> Option<nat>)
    requires multiset(a) == multiset(b)
    requires |Values(a, FLAG_I)| <= 1 && |Values(a, FLAG_P)| <= 1
    ensures Meaning(control, a, port) == Meaning(control, b, port)
  {
    hide Values, Meaning;
    AgreeingOrderDoesNotMatter(control, a, b, port);
  }

  /** A repeated -p is one place where the order matters: the last one counts. */
  lemma {:induction false} RepeatedPortsDependOnOrder(path: Text, v: Text, w: Text, port: Text -> Option<nat>)
    requires port(v).Some? && port(w).Some? && port(v) != port(w)
    ensures Meaning(None, [Group(FLAG_D, path), Group(FLAG_P, v), Group(FLAG_P, w)], port)
         != Meaning(None, [Group(FLAG_D, path), Group(FLAG_P, w), Group(FLAG_P, v)], port)
  {
    hide Values;
    ThreeGroups(FLAG_D, path, FLAG_P, v, w);
    ThreeGroups(FLAG_D, path, FLAG_P, w, v);
  }

  /** A repeated -i is the other. */
  lemma {:induction false} RepeatedAddressesDependOnOrder(path: Text, v: Text, w: Text, port: Text -> Option<nat>)
    requires v != w
    ensures Meaning(None, [Group(FLAG_C, path), Group(FLAG_I, v), Group(FLAG_I, w)], port)
         != Meaning(None, [Group(FLAG_C, path), Group(FLAG_I, w), Group(FLAG_I, v)], port)
  {
    hide Values;
    ThreeGroups(FLAG_C, path, FLAG_I, v, w);
    ThreeGroups(FLAG_C, path, FLAG_I, w, v);
  }

  lemma {:induction false} ThreeGroups(action: byte, path: Text, twice: byte, v: Text, w: Text)
    requires action != twice
    ensures forall flag: byte ::
      Values([Group(action, path), Group(twice, v), Group(twice, w)], flag)
        == if flag == action then [path] else if flag == twice then [v, w] else []
  {
    var d, p, q := Group(action, path), Group(twice, v), Group(twice, w);
    assert [] + [d] == [d] && [d] + [p] == [d, p] && [d, p] + [q] == [d, p, q];
    forall flag: byte
      ensures Values([d, p, q], flag) == if flag == action then [path] else if flag == twice then [v, w] else []
    {
      OneMoreGroup([], d, flag);
      OneMoreGroup([d], p, flag);
      OneMoreGroup([d, p], q, flag);
    }
  }

  // ---------------------------------------------------------------- order, on the command line

  /** A command line with the given control command and groups. */
  function ArgsOf(control: Option<Mode>, groups: seq<Group>): seq<Text> {
    (match control
     case Some(StatusMode) => [STATUS]
     case Some(_) => [STOP]
     case None => [])
    + Pairs(groups)
  }

  function Pairs(groups: seq<Group>): (r: seq<Text>)
    ensures |r| == 2 * |groups|
  {
    if groups == [] then []
    else Pairs(groups[..|groups| - 1]) + [[DASH, groups[|groups| - 1].flag], groups[|groups| - 1].value]
  }

  lemma {:induction false} PairsAre(groups: seq<Group>)
    ensures forall k | 0 <= k < |groups| ::
      Pairs(groups)[2 * k] == [DASH, groups[k].flag] && Pairs(groups)[2 * k + 1] == groups[k].value
  {
    if groups != [] {
      var n := |groups| - 1;
      PairsAre(groups[..n]);
      forall k | 0 <= k < |groups|
        ensures Pairs(groups)[2 * k] == [DASH, groups[k].flag] && Pairs(groups)[2 * k + 1] == groups[k].value
      {
        if k < n {
          assert Pairs(groups)[2 * k] == Pairs(groups[..n])[2 * k];
          assert Pairs(groups)[2 * k + 1] == Pairs(groups[..n])[2 * k + 1];
        }
      }
    }
  }

  /** A flag of a group that was read: neither a second dash nor the request for help. */
  predicate Plain(groups: seq<Group>) {
    forall g <- groups :: g.flag != DASH && g.flag != FLAG_H
  }

  /** Writing groups and reading them again. */
  lemma {:induction false} GroupsOfPairs(control: Option<Mode>, groups: seq<Group>)
    requires control in {None, Some(StatusMode), Some(StopMode)} && Plain(groups)
    ensures var args := ArgsOf(control, groups);
      && ControlOf(args) == control && RestOf(args) == Pairs(groups)
      && Grouped(RestOf(args)) && GroupsOf(RestOf(args)) == groups
  {
    hide Pairs;
    PairsAre(groups);
    var args := ArgsOf(control, groups);
    assert control.None? ==> args == Pairs(groups);
    assert control.None? && groups != [] ==> args[2 * 0] == [DASH, groups[0].flag];
    assert control.Some? ==> args[1..] == Pairs(groups);
    forall k | 0 <= k < |groups| ensures IsFlag(Pairs(groups)[2 * k]) && !IsHelp(Pairs(groups)[2 * k]) {
      assert groups[k] in groups;
    }
    assert Grouped(Pairs(groups));
    assert forall k | 0 <= k < |groups| :: GroupsOf(Pairs(groups))[k] == groups[k];
  }

  /** What `ParseArgs` answers when flags and values take turns. */
  function Answer(args: seq<Text>, port: Text -> Option<nat>): Outcome
    requires Grouped(RestOf(args))
  {
    Meaning(ControlOf(args), GroupsOf(RestOf(args)), port)
  }

  /** The other line is the first with its groups rearranged. */
  ghost predicate Rearranges(other: seq<Text>, args: seq<Text>)
    requires Grouped(RestOf(args))
  {
    && Grouped(RestOf(other)) && ControlOf(other) == ControlOf(args)
    && multiset(GroupsOf(RestOf(other))) == multiset(GroupsOf(RestOf(args)))
  }

  /** The same on argument vectors: the parser's answer does not depend on the order exactly under that condition. */
  lemma {:induction false} ArgumentOrderMattersExactly(args: seq<Text>, port: Text -> Option<nat>)
    requires Grouped(RestOf(args))
    ensures (forall other: seq<Text> | Rearranges(other, args) :: Answer(other, port) == Answer(args, port))
      <==> ControlOf(args).Some? || !WellUsed(GroupsOf(RestOf(args)), port) || Agrees(GroupsOf(RestOf(args)), port)
  {
    hide Meaning, WellUsed, Agrees, Grouped, GroupsOf, ArgsOf;
    var control, a := ControlOf(args), GroupsOf(RestOf(args));
    if control.Some? || !WellUsed(a, port) || Agrees(a, port) {
      forall other: seq<Text> | Rearranges(other, args) ensures Answer(other, port) == Answer(args, port) {
        AgreeingOrderDoesNotMatter(control, a, GroupsOf(RestOf(other)), port);
      }
    } else {
      var b := AnotherMeaning(control, a, port);
      ReadGroupsArePlain(RestOf(args));
      SameMembers(a, b);
      assert Plain(b);
      GroupsOfPairs(control, b);
      assert Rearranges(ArgsOf(control, b), args);
    }
  }

  lemma {:induction false} ReadGroupsArePlain(rest: seq<Text>)
    requires Grouped(rest)
    ensures Plain(GroupsOf(rest))
  {
    var groups := GroupsOf(rest);
    forall g <- groups ensures g.flag != DASH && g.flag != FLAG_H {
      var k :| 0 <= k < |groups| && groups[k] == g;
      assert IsFlag(rest[2 * k]) && !IsHelp(rest[2 * k]);
      assert rest[2 * k] == [rest[2 * k][0], rest[2 * k][1]];
    }
  }

  // ---------------------------------------------------------------- the parser

  lemma {:induction false} OneMoreGroup(groups: seq<Group>, g: Group, flag: byte)
    ensures Values(groups + [g], flag)
         == if g.flag == flag then Values(groups, flag) + [g.value] else Values(groups, flag)
  {
    assert (groups + [g])[..|groups|] == groups;
  }

  /** Reading goes on over one more group exactly when it is not refused and its port is one. */
  lemma {:induction false} OneMoreRead(control: Option<Mode>, groups: seq<Group>, g: Group, port: Text -> Option<nat>)
    ensures LastAction(groups + [g]) == if g.flag in {FLAG_C, FLAG_G, FLAG_M} then Some(g.flag) else LastAction(groups)
    ensures Stops(control, groups + [g], port) <==>
      Stops(control, groups, port) || Refuses(control, groups, g.flag) || (g.flag == FLAG_P && port(g.value).None?)
  {
    hide Refuses;
    var more, n := groups + [g], |groups|;
    assert more[..n] == groups && more[n] == g;
    assert forall k | 0 <= k < n :: more[..k] == groups[..k] && more[k] == groups[k];
  }

  /** A choice of what to do: what the groups contain before and after it. */
  lemma {:induction false} OneMoreChoice(groups: seq<Group>, g: Group)
    requires g.flag in {FLAG_C, FLAG_D, FLAG_G, FLAG_M}
    ensures var more := groups + [g];
      && (forall flag | flag in {FLAG_O, FLAG_I, FLAG_P} :: Values(more, flag) == Values(groups, flag))
      && (forall flag | flag in {FLAG_C, FLAG_D, FLAG_G, FLAG_M} && flag != g.flag ::
            Values(more, flag) == Values(groups, flag))
      && Values(more, g.flag) == Values(groups, g.flag) + [g.value] && Only(Values(more, g.flag)) == Some(g.value)
      && Actions(more) == Actions(groups) + (if g.flag == FLAG_D then 0 else 1)
      && Only([]) == None
      && forall h <- more :: h in groups || h == g
  {
    hide Values;
    forall flag: byte
      ensures Values(groups + [g], flag)
           == if g.flag == flag then Values(groups, flag) + [g.value] else Values(groups, flag)
    {
      OneMoreGroup(groups, g, flag);
    }
  }

  lemma {:induction false} OneMoreOther(groups: seq<Group>, g: Group)
    requires g.flag in {FLAG_O, FLAG_I, FLAG_P}
    ensures var more := groups + [g];
      && (forall flag | flag in {FLAG_C, FLAG_D, FLAG_G, FLAG_M} :: Values(more, flag) == Values(groups, flag))
      && (forall flag | flag in {FLAG_O, FLAG_I, FLAG_P} && flag != g.flag ::
            Values(more, flag) == Values(groups, flag))
      && Values(more, g.flag) == Values(groups, g.flag) + [g.value]
      && Actions(more) == Actions(groups)
      && forall h <- more :: h in groups || h == g
  {
    hide Values;
    forall flag: byte
      ensures Values(groups + [g], flag)
           == if g.flag == flag then Values(groups, flag) + [g.value] else Values(groups, flag)
    {
      OneMoreGroup(groups, g, flag);
    }
  }

  lemma {:induction false} GivenSomewhere(groups: seq<Group>, flag: byte)
    ensures Values(groups, flag) != [] <==> exists g <- groups :: g.flag == flag
  {
    if groups != [] {
      var n := |groups| - 1;
      GivenSomewhere(groups[..n], flag);
      assert groups == groups[..n] + [groups[n]];
      assert forall g :: g in groups <==> g in groups[..n] || g == groups[n];
    }
  }

  lemma {:induction false} ValuesGrow(groups: seq<Group>, k: nat, flag: byte)
    requires k <= |groups|
    ensures Values(groups[..k], flag) <= Values(groups, flag)
    decreases |groups| - k
  {
    if k == |groups| {
      assert groups[..k] == groups;
    } else {
      ValuesGrow(groups, k + 1, flag);
      assert groups[..k + 1][..k] == groups[..k];
    }
  }

  /** The groups so far already rule out success. */
  ghost predicate Hopeless(control: Option<Mode>, groups: seq<Group>, port: Text -> Option<nat>) {
    || (control.Some? && groups != [])
    || (exists g <- groups :: !Known(g.flag))
    || (exists v <- Values(groups, FLAG_P) :: port(v).None?)
    || |Values(groups, FLAG_O)| > 1
    || |Values(groups, FLAG_D)| + Actions(groups) > 1
  }

  lemma {:induction false} HopelessStays(control: Option<Mode>, groups: seq<Group>, k: nat, port: Text -> Option<nat>)
    requires 0 < k <= |groups| && Hopeless(control, groups[..k], port)
    ensures Meaning(control, groups, port) == ParseErr
  {
    hide Values;
    ValuesGrow(groups, k, FLAG_C);
    ValuesGrow(groups, k, FLAG_D);
    ValuesGrow(groups, k, FLAG_G);
    ValuesGrow(groups, k, FLAG_M);
    ValuesGrow(groups, k, FLAG_O);
    ValuesGrow(groups, k, FLAG_P);
    assert Actions(groups[..k]) <= Actions(groups);
    assert forall g <- groups[..k] :: g in groups;
    assert forall v <- Values(groups[..k], FLAG_P) :: v in Values(groups, FLAG_P);
    assert control.None? ==> !WellUsed(groups, port);
  }

  lemma {:induction false} NothingGiven()
    ensures forall flag: byte :: Values([], flag) == []
  {
  }

  // ---------------------------------------------------------------- the answer in terms of the arguments' bytes

  /** The k-th pair of arguments is this flag with this value. */
  predicate PairAt(args: seq<Text>, k: nat, flag: byte, v: Text) {
    2 * k + 1 < |args| && args[2 * k] == [0x2D, flag] && args[2 * k + 1] == v
  }

  ghost predicate Given(args: seq<Text>, flag: byte, v: Text) {
    exists k: nat :: PairAt(args, k, flag, v)
  }

  /** The k-th flag is one of these. */
  predicate FlagAt(args: seq<Text>, k: nat, flags: set<byte>) {
    2 * k < |args| && |args[2 * k]| == 2 && args[2 * k][0] == 0x2D && args[2 * k][1] in flags
  }

  ghost predicate Used(args: seq<Text>, flags: set<byte>) {
    exists k: nat :: FlagAt(args, k, flags)
  }

  ghost predicate AtMostOne(args: seq<Text>, flags: set<byte>) {
    forall j: nat, k: nat :: FlagAt(args, j, flags) && FlagAt(args, k, flags) ==> j == k
  }

  /** The value given last with this flag. */
  ghost predicate GivenLast(args: seq<Text>, flag: byte, v: Text) {
    exists k: nat :: PairAt(args, k, flag, v) && forall j: nat | j > k :: !FlagAt(args, j, {flag})
  }

  /** The one argument "status", and the one argument "stop". */
  predicate AsksForStatus(args: seq<Text>) {
    args == [[0x73, 0x74, 0x61, 0x74, 0x75, 0x73]]
  }

  predicate AsksToStop(args: seq<Text>) {
    args == [[0x73, 0x74, 0x6F, 0x70]]
  }

  /**
   * The command lines that are accepted: a control command alone; or pairs of -c,
   * -d, -g, -i, -m, -o or -p with a value, exactly one of them -c, -d, -g or -m,
   * -o at most once and only with -g, -i not with -d, and every port a port.
   */
  ghost predicate Understandable(args: seq<Text>, port: Text -> Option<nat>) {
    || AsksForStatus(args)
    || AsksToStop(args)
    || (&& |args| % 2 == 0
        && (forall k: nat | 2 * k < |args| :: FlagAt(args, k, {0x63, 0x64, 0x67, 0x69, 0x6D, 0x6F, 0x70}))
        && Used(args, {0x63, 0x64, 0x67, 0x6D}) && AtMostOne(args, {0x63, 0x64, 0x67, 0x6D})
        && AtMostOne(args, {0x6F}) && (Used(args, {0x6F}) ==> Used(args, {0x67}))
        && (Used(args, {0x69}) ==> !Used(args, {0x64}))
        && (forall v: Text | Given(args, 0x70, v) :: port(v).Some?))
  }

  /** What an accepted command line is understood as. */
  ghost predicate Understood(args: seq<Text>, port: Text -> Option<nat>, o: Opt) {
    && (o.mode.StatusMode? <==> AsksForStatus(args)) && (o.mode.StopMode? <==> AsksToStop(args))
    && (o.mode.ServerMode? <==> Used(args, {0x64}))
    && (forall v: Text :: o.path == Some(v) <==> Given(args, 0x64, v) || Given(args, 0x63, v))
    && (forall v: Text :: o.remotePath == Some(v) <==> Given(args, 0x67, v))
    && (forall v: Text :: o.outputPath == Some(v) <==> Given(args, 0x6F, v))
    && (forall v: Text :: o.message == Some(v) <==> Given(args, 0x6D, v))
    && o.msgType == (if Used(args, {0x63}) then 1 else if Used(args, {0x6D}) then 2
                     else if Used(args, {0x67}) then 3 else 0)
    && (if Used(args, {0x69}) then GivenLast(args, 0x69, o.ip)
        else o.ip == [0x31, 0x32, 0x37, 0x2E, 0x30, 0x2E, 0x30, 0x2E, 0x31])
    && (if Used(args, {0x70}) then exists v: Text :: GivenLast(args, 0x70, v) && port(v) == Some(o.port)
        else o.port == 8888)
  }

  /** The groups are the pairs of arguments. */
  lemma {:induction false} GroupIsPair(args: seq<Text>, k: nat)
    requires Grouped(args) && 2 * k < |args|
    ensures 2 * k + 1 < |args| && args[2 * k] == [0x2D, GroupsOf(args)[k].flag]
    ensures args[2 * k + 1] == GroupsOf(args)[k].value && GroupsOf(args)[k].flag != FLAG_H
  {
    assert args[2 * k] == [args[2 * k][0], args[2 * k][1]];
  }

  lemma {:induction false} ValueIsGiven(args: seq<Text>, flag: byte, v: Text)
    requires Grouped(args)
    ensures v in Values(GroupsOf(args), flag) <==> Given(args, flag, v)
  {
    hide Values, Grouped, GroupsOf;
    var groups := GroupsOf(args);
    ValuesAreCounted(groups, flag, v);
    assert v in Values(groups, flag) <==> v in multiset(Values(groups, flag));
    assert Group(flag, v) in multiset(groups) <==> Group(flag, v) in groups;
    if Group(flag, v) in groups {
      var k :| 0 <= k < |groups| && groups[k] == Group(flag, v);
      GroupIsPair(args, k);
      assert PairAt(args, k, flag, v);
    }
    if k: nat :| PairAt(args, k, flag, v) {
      GroupIsPair(args, k);
      assert [0x2D, flag][1] == [0x2D, groups[k].flag][1];
      assert groups[k] == Group(flag, v);
    }
  }

  lemma {:induction false} FlagIsGroup(args: seq<Text>, k: nat, flags: set<byte>)
    requires Grouped(args)
    ensures FlagAt(args, k, flags) <==> k < |GroupsOf(args)| && GroupsOf(args)[k].flag in flags
  {
    hide Grouped, GroupsOf;
    if 2 * k < |args| {
      GroupIsPair(args, k);
    }
  }

  /** How often flags of a set are given. */
  function Occurrences(groups: seq<Group>, flags: set<byte>): nat {
    if groups == [] then 0
    else Occurrences(groups[..|groups| - 1], flags) + if groups[|groups| - 1].flag in flags then 1 else 0
  }

  lemma {:induction false} ValuesOccur(groups: seq<Group>, flag: byte)
    ensures |Values(groups, flag)| == Occurrences(groups, {flag})
  {
    if groups != [] {
      ValuesOccur(groups[..|groups| - 1], flag);
    }
  }

  lemma {:induction false} ChoicesOccur(groups: seq<Group>)
    ensures |Values(groups, FLAG_D)| + Actions(groups) == Occurrences(groups, {0x63, 0x64, 0x67, 0x6D})
  {
    if groups != [] {
      ChoicesOccur(groups[..|groups| - 1]);
    }
  }

  /** None, and no two. */
  lemma {:induction false} OccurrencesMean(groups: seq<Group>, flags: set<byte>)
    ensures Occurrences(groups, flags) == 0 <==> forall k | 0 <= k < |groups| :: groups[k].flag !in flags
    ensures Occurrences(groups, flags) <= 1 <==>
      forall j, k | 0 <= j < k < |groups| :: groups[j].flag !in flags || groups[k].flag !in flags
  {
    if groups != [] {
      var n := |groups| - 1;
      OccurrencesMean(groups[..n], flags);
      assert forall k | 0 <= k < n :: groups[..n][k] == groups[k];
    }
  }

  lemma {:induction false} FlagsOccur(args: seq<Text>, flags: set<byte>)
    requires Grouped(args)
    ensures Used(args, flags) <==> Occurrences(GroupsOf(args), flags) > 0
    ensures AtMostOne(args, flags) <==> Occurrences(GroupsOf(args), flags) <= 1
  {
    hide Occurrences, Grouped, GroupsOf, FlagAt;
    var groups := GroupsOf(args);
    OccurrencesMean(groups, flags);
    forall k: nat ensures FlagAt(args, k, flags) <==> k < |groups| && groups[k].flag in flags {
      FlagIsGroup(args, k, flags);
    }
  }

  lemma {:induction false} LastIsGivenLast(args: seq<Text>, flag: byte)
    requires Grouped(args) && Values(GroupsOf(args), flag) != []
    ensures GivenLast(args, flag, Only(Values(GroupsOf(args), flag)).value)
  {
    hide Values, Grouped, GroupsOf;
    var groups := GroupsOf(args);
    var k := LastGroup(groups, flag);
    GroupIsPair(args, k);
    assert PairAt(args, k, flag, groups[k].value);
    forall j: nat | j > k ensures !FlagAt(args, j, {flag}) {
      FlagIsGroup(args, j, {flag});
    }
  }

  lemma {:induction false} LastGroup(groups: seq<Group>, flag: byte) returns (k: nat)
    requires Values(groups, flag) != []
    ensures k < |groups| && groups[k] == Group(flag, Only(Values(groups, flag)).value)
    ensures forall j | k < j < |groups| :: groups[j].flag != flag
  {
    var n := |groups| - 1;
    if groups[n].flag == flag {
      k := n;
    } else {
      k := LastGroup(groups[..n], flag);
    }
  }

  /** The order-free meaning of pairs, in terms of the bytes of the arguments. */
  lemma {:induction false} PairsAreUnderstood(args: seq<Text>, port: Text -> Option<nat>)
    requires ControlOf(args).None? && Grouped(args)
    ensures Understandable(args, port) <==> WellUsed(GroupsOf(args), port)
  {
    hide Values, Grouped, GroupsOf, Occurrences, Given, FlagAt;
    var groups := GroupsOf(args);
    assert |args| % 2 == 0 && !AsksForStatus(args) && !AsksToStop(args) by {
      PairsAreEven(args);
    }
    KnownFlags(args);
    ChoicesOccur(groups);
    FlagsOccur(args, {0x63, 0x64, 0x67, 0x6D});
    ValuesOccur(groups, FLAG_O);
    ValuesOccur(groups, FLAG_G);
    ValuesOccur(groups, FLAG_I);
    ValuesOccur(groups, FLAG_D);
    FlagsOccur(args, {0x6F});
    FlagsOccur(args, {0x67});
    FlagsOccur(args, {0x69});
    FlagsOccur(args, {0x64});
    forall v: Text ensures v in Values(groups, FLAG_P) <==> Given(args, 0x70, v) {
      ValueIsGiven(args, FLAG_P, v);
    }
  }

  lemma {:induction false} PairsAreEven(args: seq<Text>)
    requires ControlOf(args).None? && Grouped(args)
    ensures |args| % 2 == 0 && !AsksForStatus(args) && !AsksToStop(args)
  {
  }

  lemma {:induction false} KnownFlags(args: seq<Text>)
    requires Grouped(args)
    ensures (forall k: nat | 2 * k < |args| :: FlagAt(args, k, {0x63, 0x64, 0x67, 0x69, 0x6D, 0x6F, 0x70}))
      <==> forall g <- GroupsOf(args) :: Known(g.flag)
  {
    hide Grouped, GroupsOf, FlagAt;
    var groups := GroupsOf(args);
    EvenGroups(args);
    forall k: nat | 2 * k < |args|
      ensures FlagAt(args, k, {0x63, 0x64, 0x67, 0x69, 0x6D, 0x6F, 0x70}) <==> Known(groups[k].flag)
    {
      FlagIsGroup(args, k, {0x63, 0x64, 0x67, 0x69, 0x6D, 0x6F, 0x70});
    }
  }

  lemma {:induction false} EvenGroups(args: seq<Text>)
    requires Grouped(args)
    ensures |args| % 2 == 0 && |GroupsOf(args)| == |args| / 2
  {
  }

  /** A value that can be given once only is given exactly when it is the one. */
  lemma {:induction false} OnlyIsGiven(args: seq<Text>, flag: byte)
    requires Grouped(args) && |Values(GroupsOf(args), flag)| <= 1
    ensures forall v: Text :: Only(Values(GroupsOf(args), flag)) == Some(v) <==> Given(args, flag, v)
  {
    hide Values, Grouped, GroupsOf, Given;
    forall v: Text ensures Only(Values(GroupsOf(args), flag)) == Some(v) <==> Given(args, flag, v) {
      ValueIsGiven(args, flag, v);
    }
  }

  lemma {:induction false} PairsAreUnderstoodAs(args: seq<Text>, port: Text -> Option<nat>)
    requires ControlOf(args).None? && Grouped(args) && WellUsed(GroupsOf(args), port)
    ensures Understood(args, port, Meaning(None, GroupsOf(args), port).opt)
  {
    hide Values, Grouped, GroupsOf, Occurrences, Given, FlagAt, GivenLast, PortOf;
    var groups := GroupsOf(args);
    PairsAreEven(args);
    OnlyIsGiven(args, FLAG_D);
    OnlyIsGiven(args, FLAG_C);
    OnlyIsGiven(args, FLAG_G);
    OnlyIsGiven(args, FLAG_O);
    OnlyIsGiven(args, FLAG_M);
    ValuesOccur(groups, FLAG_D);
    ValuesOccur(groups, FLAG_C);
    ValuesOccur(groups, FLAG_G);
    ValuesOccur(groups, FLAG_M);
    FlagsOccur(args, {0x64});
    FlagsOccur(args, {0x63});
    FlagsOccur(args, {0x67});
    FlagsOccur(args, {0x6D});
    LastIpAndPort(args, port);
  }

  lemma {:induction false} LastIpAndPort(args: seq<Text>, port: Text -> Option<nat>)
    requires Grouped(args) && WellUsed(GroupsOf(args), port)
    ensures if Used(args, {0x69}) then
        Values(GroupsOf(args), FLAG_I) != [] && GivenLast(args, 0x69, Only(Values(GroupsOf(args), FLAG_I)).value)
      else Values(GroupsOf(args), FLAG_I) == []
    ensures if Used(args, {0x70}) then
        exists v: Text :: GivenLast(args, 0x70, v) && port(v) == Some(PortOf(GroupsOf(args), port))
      else PortOf(GroupsOf(args), port) == 8888
  {
    hide Values, Grouped, GroupsOf, Occurrences, FlagAt, GivenLast;
    var groups := GroupsOf(args);
    ValuesOccur(groups, FLAG_I);
    ValuesOccur(groups, FLAG_P);
    FlagsOccur(args, {0x69});
    FlagsOccur(args, {0x70});
    if Values(groups, FLAG_I) != [] {
      LastIsGivenLast(args, FLAG_I);
    }
    if Values(groups, FLAG_P) != [] {
      LastIsGivenLast(args, FLAG_P);
    }
  }

  /** The same with a control command in front: it must stand alone. */
  lemma {:induction false} ControlIsUnderstood(args: seq<Text>, port: Text -> Option<nat>)
    requires ControlOf(args).Some?
    ensures Understandable(args, port) <==> |args| == 1
    ensures |args| == 1 ==> Understood(args, port, Meaning(ControlOf(args), [], port).opt)
  {
    hide Values;
    assert |args[0]| >= 4;
    assert !FlagAt(args, 0, {0x63, 0x64, 0x67, 0x69, 0x6D, 0x6F, 0x70});
    if |args| == 1 {
      assert args == [args[0]];
    }
  }

  /**
   * What the parser answers to arguments in pairs: it accepts exactly the command
   * lines that can be understood, and understands them as they say.
   */
  lemma {:induction false} AnswersMean(args: seq<Text>, port: Text -> Option<nat>)
    ensures Understandable(args, port) ==> Grouped(RestOf(args))
    ensures Grouped(RestOf(args)) ==> (Answer(args, port).ParseOk? <==> Understandable(args, port))
    ensures Grouped(RestOf(args)) && Answer(args, port).ParseOk? ==> Understood(args, port, Answer(args, port).opt)
  {
    hide Understood, Values, WellUsed;
    if ControlOf(args).Some? {
      ControlIsUnderstood(args, port);
    } else {
      if Understandable(args, port) {
        UnderstandableIsGrouped(args, port);
      }
      if Grouped(args) {
        hide Understandable, Grouped;
        PairsAreUnderstood(args, port);
        if WellUsed(GroupsOf(args), port) {
          PairsAreUnderstoodAs(args, port);
        }
      }
    }
  }

  lemma {:induction false} UnderstandableIsGrouped(args: seq<Text>, port: Text -> Option<nat>)
    requires ControlOf(args).None? && Understandable(args, port)
    ensures Grouped(args)
  {
    forall k | 0 <= k < |args| / 2 ensures IsFlag(args[2 * k]) && !IsHelp(args[2 * k]) {
      assert FlagAt(args, k, {0x63, 0x64, 0x67, 0x69, 0x6D, 0x6F, 0x70});
    }
  }

  /** The variables of `parse_args`. */
  class Parser {
    var mode: Option<Mode>
    var path: Option<Text>
    var remotePath: Option<Text>
    var outputPath: Option<Text>
    var message: Option<Text>
    var ip: Text
    var port: nat
    var msgType: nat
    var serverSelected: bool
    var clientActions: nat
    var clientAction: Option<byte>
    var outputSeen: bool
    var ipSeen: bool
    const control: Option<Mode>
    const parsePort: Text -> Option<nat>

    /** Nothing is wrong yet, and the counters say what the groups so far contain. */
    ghost predicate Counts(groups: seq<Group>)
      reads this
    {
      && control in {None, Some(StatusMode), Some(StopMode)}
      && (forall g <- groups :: Known(g.flag) && (control.Some? ==> g.flag == FLAG_I))
      && (forall v <- Values(groups, FLAG_P) :: parsePort(v).Some?)
      && |Values(groups, FLAG_O)| <= 1 && |Values(groups, FLAG_D)| <= 1
      && serverSelected == (Values(groups, FLAG_D) != [])
      && clientActions == Actions(groups)
      && (clientAction == None <==> clientActions == 0)
      && clientAction == LastAction(groups) && !Stops(control, groups, parsePort)
      && (clientAction.Some? ==>
            clientAction.value in {FLAG_C, FLAG_G, FLAG_M} && Values(groups, clientAction.value) != [])
      && outputSeen == (Values(groups, FLAG_O) != [])
      && ipSeen == (Values(groups, FLAG_I) != [])
    }

    /**
     * The options say what the groups so far mean, unless the server and a
     * client action, or two actions, were asked for.
     */
    ghost predicate Options(groups: seq<Group>)
      reads this
    {
      var d, c := Values(groups, FLAG_D), Values(groups, FLAG_C);
      var g, m := Values(groups, FLAG_G), Values(groups, FLAG_M);
      && outputPath == Only(Values(groups, FLAG_O))
      && ip == (match Only(Values(groups, FLAG_I)) { case Some(v) => v case None => LOCALHOST })
      && port == PortOf(groups, parsePort)
      && (|d| + Actions(groups) <= 1 ==>
            && path == (if d != [] then Only(d) else Only(c))
            && remotePath == Only(g) && message == Only(m)
            && msgType ==
               (if c != [] then SEND_FILE else if g != [] then GET_FILE else if m != [] then TEXT_MESSAGE else 0))
      && (control.Some? ==> mode == control)
    }

    constructor (control: Option<Mode>, parsePort: Text -> Option<nat>)
      requires control in {None, Some(StatusMode), Some(StopMode)}
      ensures this.control == control && this.parsePort == parsePort
      ensures Counts([]) && Options([])
    {
      this.control, this.parsePort := control, parsePort;
      mode, path, remotePath, outputPath, message := control, None, None, None, None;
      ip, port, msgType := LOCALHOST, DEFAULT_PORT, 0;
      serverSelected, clientActions, clientAction := false, 0, None;
      outputSeen, ipSeen := false, false;
    }

    /** The tests that come before a flag's value is taken. */
    method Admits(flag: byte, ghost groups: seq<Group>) returns (ok: bool)
      requires Counts(groups)
      ensures ok <==> !Refuses(control, groups, flag)
      ensures !ok ==> forall v: Text :: Hopeless(control, groups + [Group(flag, v)], parsePort)
      ensures ok ==> Known(flag) && (control.Some? ==> flag == FLAG_I)
      ensures ok && flag == FLAG_D ==> !serverSelected
      ensures ok && flag == FLAG_O ==> !outputSeen
    {
      hide Values;
      ok := Known(flag)
        && (control.None? || flag == FLAG_I)
        && (flag == FLAG_D ==> !serverSelected)
        && (flag in {FLAG_C, FLAG_G, FLAG_M} ==> clientAction != Some(flag))
        && (flag == FLAG_O ==> !outputSeen);
      if !ok {
        forall v: Text ensures Hopeless(control, groups + [Group(flag, v)], parsePort) {
          var g := Group(flag, v);
          assert g in groups + [g];
          OneMoreGroup(groups, g, FLAG_C);
          OneMoreGroup(groups, g, FLAG_D);
          OneMoreGroup(groups, g, FLAG_G);
          OneMoreGroup(groups, g, FLAG_M);
          OneMoreGroup(groups, g, FLAG_O);
        }
      }
    }

    /** -d with its value. */
    method TakeServer(value: Text, ghost groups: seq<Group>)
      requires Counts(groups) && Options(groups) && control.None? && !serverSelected
      requires !Refuses(control, groups, FLAG_D)
      modifies this
      ensures Counts(groups + [Group(FLAG_D, value)]) && Options(groups + [Group(FLAG_D, value)])
    {
      OneMoreRead(control, groups, Group(FLAG_D, value), parsePort);
      hide LastAction, Stops, Refuses;
      hide Values, Only;
      OneMoreChoice(groups, Group(FLAG_D, value));
      path, mode, serverSelected := Some(value), Some(ServerMode), true;
    }

    // -c, -g and -m with their value.

    method TakeSend(value: Text, ghost groups: seq<Group>)
      requires Counts(groups) && Options(groups) && control.None?
      requires !Refuses(control, groups, FLAG_C)
      modifies this
      ensures Counts(groups + [Group(FLAG_C, value)]) && Options(groups + [Group(FLAG_C, value)])
    {
      OneMoreRead(control, groups, Group(FLAG_C, value), parsePort);
      hide LastAction, Stops, Refuses;
      hide Values, Only;
      OneMoreChoice(groups, Group(FLAG_C, value));
      mode, path, message, msgType := Some(ClientMode), Some(value), None, SEND_FILE;
      clientAction, clientActions := Some(FLAG_C), clientActions + 1;
    }

    method TakeGet(value: Text, ghost groups: seq<Group>)
      requires Counts(groups) && Options(groups) && control.None?
      requires !Refuses(control, groups, FLAG_G)
      modifies this
      ensures Counts(groups + [Group(FLAG_G, value)]) && Options(groups + [Group(FLAG_G, value)])
    {
      OneMoreRead(control, groups, Group(FLAG_G, value), parsePort);
      hide LastAction, Stops, Refuses;
      hide Values, Only;
      OneMoreChoice(groups, Group(FLAG_G, value));
      mode, remotePath, msgType := Some(ClientMode), Some(value), GET_FILE;
      clientAction, clientActions := Some(FLAG_G), clientActions + 1;
    }

    method TakeMessage(value: Text, ghost groups: seq<Group>)
      requires Counts(groups) && Options(groups) && control.None?
      requires !Refuses(control, groups, FLAG_M)
      modifies this
      ensures Counts(groups + [Group(FLAG_M, value)]) && Options(groups + [Group(FLAG_M, value)])
    {
      OneMoreRead(control, groups, Group(FLAG_M, value), parsePort);
      hide LastAction, Stops, Refuses;
      hide Values, Only;
      OneMoreChoice(groups, Group(FLAG_M, value));
      mode, path, message, msgType := Some(ClientMode), None, Some(value), TEXT_MESSAGE;
      clientAction, clientActions := Some(FLAG_M), clientActions + 1;
    }

    // -o, -i and -p with their value.

    method TakeOutput(value: Text, ghost groups: seq<Group>)
      requires Counts(groups) && Options(groups) && control.None? && !outputSeen
      requires !Refuses(control, groups, FLAG_O)
      modifies this
      ensures Counts(groups + [Group(FLAG_O, value)]) && Options(groups + [Group(FLAG_O, value)])
    {
      OneMoreRead(control, groups, Group(FLAG_O, value), parsePort);
      hide LastAction, Stops, Refuses;
      hide Values;
      OneMoreOther(groups, Group(FLAG_O, value));
      outputPath, outputSeen := Some(value), true;
    }

    method TakeIp(value: Text, ghost groups: seq<Group>)
      requires Counts(groups) && Options(groups)
      requires !Refuses(control, groups, FLAG_I)
      modifies this
      ensures Counts(groups + [Group(FLAG_I, value)]) && Options(groups + [Group(FLAG_I, value)])
    {
      OneMoreRead(control, groups, Group(FLAG_I, value), parsePort);
      hide LastAction, Stops, Refuses;
      hide Values;
      OneMoreOther(groups, Group(FLAG_I, value));
      ip, ipSeen := value, true;
    }

    /** Only here can a value be refused. */
    method TakePort(value: Text, ghost groups: seq<Group>) returns (ok: bool)
      requires Counts(groups) && Options(groups) && control.None?
      requires !Refuses(control, groups, FLAG_P)
      modifies this
      ensures ok ==> Counts(groups + [Group(FLAG_P, value)]) && Options(groups + [Group(FLAG_P, value)])
      ensures !ok ==> Hopeless(control, groups + [Group(FLAG_P, value)], parsePort)
      ensures ok <==> parsePort(value).Some?
    {
      OneMoreRead(control, groups, Group(FLAG_P, value), parsePort);
      hide LastAction, Stops, Refuses;
      hide Values;
      OneMoreOther(groups, Group(FLAG_P, value));
      var p := parsePort(value);
      ok := p.Some?;
      if ok {
        port := p.value;
      }
    }

    method Take(flag: byte, value: Text, ghost groups: seq<Group>) returns (ok: bool)
      requires Counts(groups) && Options(groups) && Known(flag) && (control.Some? ==> flag == FLAG_I)
      requires flag == FLAG_D ==> !serverSelected
      requires flag == FLAG_O ==> !outputSeen
      requires !Refuses(control, groups, flag)
      modifies this
      ensures ok ==> Counts(groups + [Group(flag, value)]) && Options(groups + [Group(flag, value)])
      ensures !ok ==> Hopeless(control, groups + [Group(flag, value)], parsePort)
      ensures !ok ==> Stops(control, groups + [Group(flag, value)], parsePort)
    {
      OneMoreRead(control, groups, Group(flag, value), parsePort);
      hide LastAction, Stops, Refuses;
      hide Values, Counts, Options, Hopeless;
      ok := true;
      if flag == FLAG_D {
        TakeServer(value, groups);
      } else if flag == FLAG_C {
        TakeSend(value, groups);
      } else if flag == FLAG_G {
        TakeGet(value, groups);
      } else if flag == FLAG_M {
        TakeMessage(value, groups);
      } else if flag == FLAG_O {
        TakeOutput(value, groups);
      } else if flag == FLAG_I {
        TakeIp(value, groups);
      } else {
        ok := TakePort(value, groups);
      }
    }

    /** The tests after the loop. */
    method Finish(ghost groups: seq<Group>) returns (r: Outcome)
      requires Counts(groups) && Options(groups)
      modifies this`mode
      ensures r == Meaning(control, groups, parsePort)
    {
      hide Values;
      GivenSomewhere(groups, FLAG_I);
      NothingGiven();
      assert groups != [] ==> groups[0] in groups;
      if outputSeen && clientAction != Some(FLAG_G) {
        return ParseErr;
      }
      if !serverSelected && clientActions == 0 && control.None? {
        return ParseErr;
      }
      if serverSelected && clientActions > 0 {
        return ParseErr;
      }
      if clientActions > 1 {
        return ParseErr;
      }
      if control.None? {
        mode := Some(if serverSelected then ServerMode else ClientMode);
      }
      if ipSeen && mode != Some(ClientMode) {
        return ParseErr;
      }
      r := ParseOk(Opt(mode.value, path, remotePath, outputPath, message, ip, port, msgType));
    }
  }

  // ---------------------------------------------------------------- the loop

  lemma {:induction false} OneMorePair(rest: seq<Text>, k: nat)
    requires 2 * k + 2 <= |rest| && Grouped(rest[..2 * k]) && IsFlag(rest[2 * k]) && !IsHelp(rest[2 * k])
    ensures Grouped(rest[..2 * k + 2])
    ensures GroupsOf(rest[..2 * k + 2]) == GroupsOf(rest[..2 * k]) + [Group(rest[2 * k][1], rest[2 * k + 1])]
  {
    var a, b := rest[..2 * k], rest[..2 * k + 2];
    forall j | 0 <= j < |b| / 2 ensures IsFlag(b[2 * j]) && !IsHelp(b[2 * j]) {
      assert j < k ==> b[2 * j] == a[2 * j];
    }
    assert forall j | 0 <= j < k :: GroupsOf(b)[j] == GroupsOf(a)[j];
  }

  lemma {:induction false} FirstGroups(rest: seq<Text>, k: nat)
    requires Grouped(rest) && 2 * k <= |rest| && Grouped(rest[..2 * k])
    ensures GroupsOf(rest[..2 * k]) == GroupsOf(rest)[..k]
  {
    var a := rest[..2 * k];
    assert forall j | 0 <= j < k :: a[2 * j] == rest[2 * j] && a[2 * j + 1] == rest[2 * j + 1];
  }

  lemma {:induction false} FlagNeeded(rest: seq<Text>, k: nat)
    requires 2 * k < |rest|
    ensures !IsFlag(rest[2 * k]) ==> !Grouped(rest)
    ensures IsHelp(rest[2 * k]) ==> AsksForHelp(rest)
    ensures 2 * k + 1 == |rest| ==> !Grouped(rest)
  {
  }

  lemma {:induction false} NoGroups(rest: seq<Text>)
    ensures Grouped(rest[..0]) && GroupsOf(rest[..0]) == []
  {
  }

  lemma {:induction false} GroupedIsNoHelp(rest: seq<Text>)
    requires Grouped(rest)
    ensures !AsksForHelp(rest)
  {
  }

  /** After an error at the k-th flag no help is given further on. */
  lemma {:induction false} NoHelpLater(control: Option<Mode>, rest: seq<Text>, port: Text -> Option<nat>, k: nat)
    requires 2 * k < |rest| && Grouped(rest[..2 * k]) && !IsHelp(rest[2 * k])
    requires || !IsFlag(rest[2 * k])
             || 2 * k + 1 == |rest|
             || (Grouped(rest[..2 * k + 2]) && Stops(control, GroupsOf(rest[..2 * k + 2]), port))
    ensures forall j: nat :: !HelpAt(control, rest, port, j)
  {
    hide Stops;
    forall j: nat ensures !HelpAt(control, rest, port, j) {
      if 2 * j < |rest| && Grouped(rest[..2 * j]) {
        if j < k {
          assert rest[..2 * k][2 * j] == rest[2 * j];
        } else if j > k {
          assert rest[..2 * j][2 * k] == rest[2 * k];
          var part := rest[..2 * j];
          assert part[..2 * k + 2] == rest[..2 * k + 2];
          FirstGroups(part, k + 1);
          StopsStays(control, GroupsOf(part), k + 1, port);
        }
      }
    }
  }

  lemma {:induction false} StopsStays(control: Option<Mode>, groups: seq<Group>, n: nat, port: Text -> Option<nat>)
    requires n <= |groups| && Stops(control, groups[..n], port)
    ensures Stops(control, groups, port)
  {
    hide Refuses;
    assert forall k | 0 <= k < n :: groups[..n][..k] == groups[..k] && groups[..n][k] == groups[k];
  }

  lemma {:induction false} NoHelpAtAll(control: Option<Mode>, rest: seq<Text>, port: Text -> Option<nat>)
    requires Grouped(rest)
    ensures forall j: nat :: !HelpAt(control, rest, port, j)
  {
    hide Stops;
  }

  /**
   * `parse_args`, for every argument vector: help exactly where reading comes to
   * a request for it without an error; otherwise the meaning of the groups, or
   * an error when there is a request or flags and values do not take turns.
   */
  method ParseArgs(args: seq<Text>, parsePort: Text -> Option<nat>) returns (r: Outcome)
    ensures r.ParseHelp? <==> exists k: nat :: HelpAt(ControlOf(args), RestOf(args), parsePort, k)
    ensures AsksForHelp(RestOf(args)) ==> !r.ParseOk?
    ensures !AsksForHelp(RestOf(args)) ==>
      r == if Grouped(RestOf(args)) then Answer(args, parsePort) else ParseErr
    ensures r.ParseOk? <==> Understandable(args, parsePort)
    ensures r.ParseOk? ==> Understood(args, parsePort, r.opt)
    ensures r.ParseHelp? ==> [0x2D, 0x68] in args
    ensures args != [] && args[0] == [0x2D, 0x68] ==> r.ParseHelp?
  {
    hide Meaning, Hopeless, Values, Grouped, AsksForHelp, GroupsOf, Known, Parser.Counts, Parser.Options;
    hide Stops, Refuses, HelpAt, Understandable, Understood;
    NoGroups(RestOf(args));
    AnswersMean(args, parsePort);
    HelpIsAskedFor(args, parsePort);
    var control, rest := ControlOf(args), RestOf(args);
    var parser := new Parser(control, parsePort);
    ghost var groups: seq<Group> := [];
    var i, k: nat := 0, 0;
    while i < |rest|
      invariant i == 2 * k <= |rest| && Grouped(rest[..i]) && groups == GroupsOf(rest[..i])
      invariant fresh(parser) && parser.control == control && parser.parsePort == parsePort
      invariant parser.Counts(groups) && parser.Options(groups)
    {
      FlagNeeded(rest, k);
      if !IsFlag(rest[i]) {
        NoHelpLater(control, rest, parsePort, k);
        return ParseErr;
      }
      if IsHelp(rest[i]) {
        HelpIsHere(parser, control, rest, groups, k);
        return ParseHelp;
      }
      var flag := rest[i][1];
      var ok := parser.Admits(flag, groups);
      if i + 1 >= |rest| {
        NoHelpLater(control, rest, parsePort, k);
        return ParseErr;
      }
      ghost var g := Group(flag, rest[i + 1]);
      OneMorePair(rest, k);
      OneMoreRead(control, groups, g, parsePort);
      if ok {
        ok := parser.Take(flag, rest[i + 1], groups);
      }
      if !ok {
        NoHelpLater(control, rest, parsePort, k);
        if Grouped(rest) {
          FirstGroups(rest, k + 1);
          HopelessStays(control, GroupsOf(rest), k + 1, parsePort);
        }
        return ParseErr;
      }
      groups, i, k := groups + [g], i + 2, k + 1;
    }
    assert rest[..i] == rest;
    GroupedIsNoHelp(rest);
    NoHelpAtAll(control, rest, parsePort);
    r := parser.Finish(groups);
  }

  /** Help is given only to those who ask for it, and to those who ask for it first. */
  lemma {:induction false} HelpIsAskedFor(args: seq<Text>, port: Text -> Option<nat>)
    ensures forall k: nat :: HelpAt(ControlOf(args), RestOf(args), port, k) ==> [0x2D, 0x68] in args
    ensures args != [] && args[0] == [0x2D, 0x68] ==> HelpAt(ControlOf(args), RestOf(args), port, 0)
    ensures Grouped(RestOf(args)) ==> !AsksForHelp(RestOf(args))
  {
    hide Refuses;
    if args != [] && args[0] == [0x2D, 0x68] {
      assert args[..0] == [];
      NoGroups(args);
    }
  }

  lemma {:induction false} HelpIsHere(
    parser: Parser, control: Option<Mode>, rest: seq<Text>, groups: seq<Group>, k: nat)
    requires 2 * k < |rest| && IsHelp(rest[2 * k]) && Grouped(rest[..2 * k]) && groups == GroupsOf(rest[..2 * k])
    requires parser.control == control && parser.Counts(groups)
    ensures HelpAt(control, rest, parser.parsePort, k)
  {
    hide Stops;
  }
}
