/** What a child program's calls of print and forward_to come to at the other end of the relay. */
module Programs {
  import opened Wire
  import opened ChildOutput
  import Relay
  import EndToEnd
  import Inputs
  import Pipes
  import Deadlock
  import Delivery

  /** The frames forwarded to interface n, in order. */
  function FramesTo(cs: seq<Call>, n: nat): seq<seq<byte>> {
    if cs == [] then []
    else (if cs[0].Forward? && cs[0].ifcNum == n then [cs[0].frame] else []) + FramesTo(cs[1..], n)
  }

  /** The texts printed, in order. */
  function Texts(cs: seq<Call>): seq<seq<byte>> {
    if cs == [] then [] else (if cs[0].Print? then [UntilZero(cs[0].str)] else []) + Texts(cs[1..])
  }

  lemma {:induction false} CallsAreMessages(cs: seq<Call>, n: nat)
    requires n > 0 && forall c | c in cs && c.Forward? :: c.ifcNum > 0
    ensures Payloads(Messages(cs), n) == FramesTo(cs, n)
    ensures Payloads(Messages(cs), 0) == Texts(cs)
    ensures forall x | x in Texts(cs) :: 0 !in x
  {
    if cs != [] {
      assert Messages(cs)[1..] == Messages(cs[1..]);
      assert cs == [cs[0]] + cs[1..];
      CallsAreMessages(cs[1..], n);
    }
  }

  /**
   * A program's calls, cut into writes, reads and sends in any way, come out as they were made: every interface
   * is sent the frames forwarded to it and the user is shown the texts, in order and completely once nothing is
   * on its way. `done` are the calls up to the first one that aborts over the MTU; that their messages are ones a
   * child may send is the same as that all of them are proper (ProperProgramIff).
   */
  lemma ProgramReachesNetwork(macs: seq<seq<byte>>, steps: seq<Relay.Step>, t: Relay.System,
                              cs: seq<Call>, mtus: seq<nat>, i: nat)
    requires |mtus| == |macs| && i < |macs| && Wired(cs, mtus)
    requires ChildMessages(Output(cs, mtus)) && Relay.Reaches(macs, steps, t, Output(cs, mtus))
    ensures |t.driver.log.sent| == |macs|
    ensures var done, log := cs[..Performed(cs, mtus)], t.driver.log;
            && log.sent[i] <= Concat(FramesTo(done, i + 1))
            && log.printed <= Concat(Texts(done))
            && (EndToEnd.DrainedFromChild(t, Output(cs, mtus)) ==>
                  log.sent[i] == Concat(FramesTo(done, i + 1)) && log.printed == Concat(Texts(done)))
  {
    hide Relay.Reaches, Payloads, Concat, Shown, Messages, FramesTo, Texts, EndToEnd.DrainedFromChild, UntilZero;
    var done := cs[..Performed(cs, mtus)];
    assert forall c | c in done :: c in cs;
    CallsAreMessages(done, i + 1);
    EndToEnd.ShownCompletelyIff(Texts(done));
    EndToEnd.OutputReachesNetwork(macs, steps, t, Output(cs, mtus), i);
  }

  /** The k-th message is that of the k-th call. */
  lemma OutputOfPrefix(cs: seq<Call>, mtus: seq<nat>, k: nat)
    requires Wired(cs, mtus) && k <= |Output(cs, mtus)|
    ensures k <= |cs| && Output(cs, mtus)[..k] == Messages(cs[..k])
  {
    hide Performed, MessageOf;
  }

  lemma ToInterfaces(cs: seq<Call>, mtus: seq<nat>)
    requires Wired(cs, mtus)
    ensures Delivery.AddressesWithin(Output(cs, mtus), |mtus|)
  {
    hide Performed, UntilZero;
    forall m | m in Output(cs, mtus) ensures m.kind <= |mtus| {
      var k :| 0 <= k < |Output(cs, mtus)| && Output(cs, mtus)[k] == m;
      assert cs[k] in cs;
    }
  }

  /**
   * A program whose driver runs can always get to the state in which every call it made in answer to what it has read
   * has come out, and everything read was delivered to it, unless its inputs and its output are both so long that
   * the two can block each other.
   */
  lemma {:induction false} ProgramCanFinish(macs: seq<seq<byte>>, before: seq<Pipes.Move>, w: Pipes.World,
                                            c: Pipes.Child, cs: seq<Call>, mtus: seq<nat>, i: nat)
      returns (moves: seq<Pipes.Move>, v: Pipes.World)
    requires |mtus| == |macs| && i < |macs| && Wired(cs, mtus) && EndToEnd.ProperMacs(macs)
    requires c.output == Output(cs, mtus) && Pipes.Proper(c) && Pipes.Arrives(macs, before, w, c)
    requires w.sys.driver.running && Inputs.InputsFit(macs, w.sys.driver.log)
    requires Deadlock.Unblockable(w.sys.driver.log, c)
    ensures Pipes.WorldInv(w, c) && Pipes.Leads(w, moves, v, c) && Delivery.SameInputs(w.sys, v.sys)
    ensures Inputs.ToldAll(macs, v.sys) && |v.sys.driver.log.sent| == |macs|
    ensures var n, log := c.replies(|v.sys.consumed|), v.sys.driver.log;
            && n <= |cs| && v.sys.emitted == |Stream(Messages(cs[..n]))|
            && log.sent[i] == Concat(FramesTo(cs[..n], i + 1)) && log.printed == Concat(Texts(cs[..n]))
  {
    hide Pipes.WorldInv, Pipes.Leads, Pipes.Arrives, Payloads, Concat, Shown, Messages, FramesTo, Texts, UntilZero;
    hide Inputs.InputsFit, Inputs.ToldAll, Deadlock.Unblockable, Relay.SysInv, Stream;
    ToInterfaces(cs, mtus);
    moves, v := Delivery.CanDrain(macs, before, w, c);
    var n := c.replies(|v.sys.consumed|);
    OutputOfPrefix(cs, mtus, n);
    Delivery.DrainedFromWorld(v, c, i);
    assert forall x | x in cs[..n] :: x in cs;
    CallsAreMessages(cs[..n], i + 1);
    EndToEnd.ShownCompletelyIff(Texts(cs[..n]));
  }
}
