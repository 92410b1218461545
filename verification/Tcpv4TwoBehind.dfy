/** A run in which BP is two bundles behind: one is in the slot, and the next transfer is
    complete before the delivery thread has got to it. */
module Tcpv4TwoBehind {
  import opened Options
  import opened Tcpv4Ext
  import opened Tcpv4Receive
  import opened Tcpv4Rx
  import Tcpv4EmptyBundle

  const TINY := Config(1, 1)
  const FIRST := Segment(3, 0, LengthExt(1), [7])
  const SECOND := Segment(3, 1, LengthExt(1), [8])

  const S1 := INITIAL.(items := [Item(FIRST, false)], active := true, id := 0, pc := Taking(FIRST))
  const S2 := S1.(rx := [7], active := false, pc := HandingOver(3))
  const S3 := S2.(pc := Reading, dlv := [7], rx := [], dlvId := 0, dlvFlags := 3, pending := true)
  const S4 := S3.(items := [Item(FIRST, false), Item(SECOND, false)], active := true, id := 1, pc := Taking(SECOND))
  const S5 := S4.(rx := [8], active := false, pc := HandingOver(3))

  lemma FirstIsHandedOver()
    ensures Apply(TINY, INITIAL, Begin(FIRST)) == Some(S1)
    ensures Apply(TINY, S1, Take) == Some(S2)
    ensures Apply(TINY, S2, HandOver) == Some(S3)
  {
    hide LengthExt, Declares;
    LengthExtUnderstood(1);
    Tcpv4EmptyBundle.OnlyOneLength(1);
    assert INITIAL.items + [Item(FIRST, false)] == S1.items;
    assert [] + FIRST.data == S2.rx;
  }

  lemma SecondIsComplete()
    ensures Apply(TINY, S3, Begin(SECOND)) == Some(S4)
    ensures Apply(TINY, S4, Take) == Some(S5)
  {
    hide LengthExt, Declares;
    LengthExtUnderstood(1);
    Tcpv4EmptyBundle.OnlyOneLength(1);
    assert S3.items + [Item(SECOND, false)] == S4.items;
    assert [] + SECOND.data == S5.rx;
  }

  lemma Then(actions: seq<Action>, s: State, a: Action, t: State)
    requires Run(TINY, actions) == Some(s) && Apply(TINY, s, a) == Some(t)
    ensures Run(TINY, actions + [a]) == Some(t)
  {
    hide Apply;
    assert (actions + [a])[..|actions|] == actions;
  }

  lemma TwoBehind() returns (actions: seq<Action>)
    ensures Run(TINY, actions) == Some(S5)
    ensures |Bundles(Events(TINY, S5.items))| == |Bundles(S5.log)| + 2
  {
    hide Apply, LengthExt;
    FirstIsHandedOver();
    SecondIsComplete();
    actions := [];
    Then(actions, INITIAL, Begin(FIRST), S1);
    hide Run;
    actions := actions + [Begin(FIRST)];
    Then(actions, S1, Take, S2);
    actions := actions + [Take];
    Then(actions, S2, HandOver, S3);
    actions := actions + [HandOver];
    Then(actions, S3, Begin(SECOND), S4);
    actions := actions + [Begin(SECOND)];
    Then(actions, S4, Take, S5);
    actions := actions + [Take];
    AtMostOneBehind(TINY, actions);
  }
}
