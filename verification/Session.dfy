/** A client and a server connection joined by a byte stream in each direction. */
module Session {
  import opened Os

  /** One event, on one of the two sides. */
  datatype Turn = ByClient(e: Event) | ByServer(e: Event)

  function ClientSide(turns: seq<Turn>): seq<Event> {
    if turns == [] then []
    else
      ClientSide(turns[..|turns| - 1])
      + match turns[|turns| - 1] case ByClient(e) => [e] case ByServer(_) => []
  }

  function ServerSide(turns: seq<Turn>): seq<Event> {
    if turns == [] then []
    else
      ServerSide(turns[..|turns| - 1])
      + match turns[|turns| - 1] case ByClient(_) => [] case ByServer(e) => [e]
  }

  /** What the client, and the server, have done in the first k turns. */
  function Client(turns: seq<Turn>, k: nat): History
    requires k <= |turns|
  {
    Replay(ClientSide(turns[..k]))
  }

  function Server(turns: seq<Turn>, k: nat): History
    requires k <= |turns|
  {
    Replay(ServerSide(turns[..k]))
  }

  /**
   * A run: at every moment each side has received some first part of what the
   * other had sent by then, and both keep their guarantees. The order of the
   * turns, the sizes of the pieces and the point where it all breaks off are
   * arbitrary.
   */
  ghost predicate Runs(turns: seq<Turn>, clientInv: History -> bool, serverInv: History -> bool) {
    && Always(ClientSide(turns), clientInv)
    && Always(ServerSide(turns), serverInv)
    && (forall k | 0 <= k <= |turns| :: Client(turns, k).recvd <= Server(turns, k).sent)
    && (forall k | 0 <= k <= |turns| :: Server(turns, k).recvd <= Client(turns, k).sent)
  }

  lemma {:induction false} SidesGrow(turns: seq<Turn>, k: nat)
    requires k <= |turns|
    ensures ClientSide(turns[..k]) <= ClientSide(turns) && ServerSide(turns[..k]) <= ServerSide(turns)
  {
    if k < |turns| {
      var shorter := turns[..|turns| - 1];
      SidesGrow(shorter, k);
      assert shorter[..k] == turns[..k];
    } else {
      assert turns[..k] == turns;
    }
  }

  /** At every moment both guarantees hold and the streams are in step. */
  lemma {:induction false} Moment(turns: seq<Turn>, clientInv: History -> bool, serverInv: History -> bool, k: nat)
    requires Runs(turns, clientInv, serverInv) && k <= |turns|
    ensures clientInv(Client(turns, k)) && serverInv(Server(turns, k))
    ensures Client(turns, k).recvd <= Server(turns, k).sent && Server(turns, k).recvd <= Client(turns, k).sent
  {
    hide Replay, ClientSide, ServerSide;
    SidesGrow(turns, k);
    var c, s := ClientSide(turns[..k]), ServerSide(turns[..k]);
    assert c == ClientSide(turns)[..|c|] && s == ServerSide(turns)[..|s|];
  }

  lemma {:induction false} AlwaysSnoc(trace: seq<Event>, e: Event, inv: History -> bool)
    requires Always(trace, inv) && Enabled(Replay(trace), e) && inv(Step(Replay(trace), e))
    ensures Always(trace + [e], inv) && Replay(trace + [e]) == Step(Replay(trace), e)
  {
    hide Step, Enabled, Always;
    var all := trace + [e];
    assert all[..|trace|] == trace;
    assert Replay(all) == Step(Replay(trace), e);
    AlwaysLonger(trace, all, inv);
  }

  /** One event more, that is possible and keeps the promise. */
  lemma {:induction false} AlwaysLonger(trace: seq<Event>, all: seq<Event>, inv: History -> bool)
    requires Always(trace, inv) && |all| == |trace| + 1 && all[..|trace|] == trace
    requires Enabled(Replay(trace), all[|trace|]) && inv(Replay(all))
    ensures Always(all, inv)
  {
    hide Step, Enabled, Replay;
    forall k | 0 <= k <= |all| ensures inv(Replay(all[..k])) {
      if k == |all| {
        assert all[..k] == all;
      } else {
        assert all[..k] == trace[..k];
      }
    }
    forall k | 0 <= k < |all| ensures Enabled(Replay(all[..k]), all[k]) {
      if k == |trace| {
        assert all[..k] == trace;
      } else {
        assert all[..k] == trace[..k] && all[k] == trace[k];
      }
    }
  }

  lemma {:induction false} SameSides(turns: seq<Turn>, t: Turn)
    ensures ClientSide(turns + [t]) == ClientSide(turns) + (match t case ByClient(e) => [e] case ByServer(_) => [])
    ensures ServerSide(turns + [t]) == ServerSide(turns) + (match t case ByClient(_) => [] case ByServer(e) => [e])
  {
    assert (turns + [t])[..|turns|] == turns;
  }

  lemma {:induction false} Before(turns: seq<Turn>, t: Turn)
    ensures forall k | 0 <= k <= |turns| ::
      Client(turns + [t], k) == Client(turns, k) && Server(turns + [t], k) == Server(turns, k)
  {
    hide Replay, ClientSide, ServerSide;
    assert forall k | 0 <= k <= |turns| :: (turns + [t])[..k] == turns[..k];
  }

  /** A run may go on with any event that its side's guarantee and the streams allow. */
  lemma {:induction false} GoOn(
    turns: seq<Turn>, t: Turn, c: History, s: History, clientInv: History -> bool, serverInv: History -> bool)
    requires Runs(turns, clientInv, serverInv) && c == Client(turns, |turns|) && s == Server(turns, |turns|)
    requires match t
      case ByClient(e) =>
        Enabled(c, e) && clientInv(Step(c, e)) && Step(c, e).recvd <= s.sent && s.recvd <= Step(c, e).sent
      case ByServer(e) =>
        Enabled(s, e) && serverInv(Step(s, e)) && Step(s, e).recvd <= c.sent && c.recvd <= Step(s, e).sent
    ensures Runs(turns + [t], clientInv, serverInv)
    ensures Client(turns + [t], |turns| + 1) == match t { case ByClient(e) => Step(c, e) case ByServer(_) => c }
    ensures Server(turns + [t], |turns| + 1) == match t { case ByClient(_) => s case ByServer(e) => Step(s, e) }
  {
    hide Replay, ClientSide, ServerSide, Step, Enabled, Always;
    var all := turns + [t];
    assert turns[..|turns|] == turns && all[..|all|] == all;
    SameSides(turns, t);
    Before(turns, t);
    var cs, ss := ClientSide(turns), ServerSide(turns);
    assert cs + [] == cs && ss + [] == ss;
    match t
    case ByClient(e) => AlwaysSnoc(cs, e, clientInv);
    case ByServer(e) => AlwaysSnoc(ss, e, serverInv);
  }
}
