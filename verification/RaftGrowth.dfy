/** Facts about a node, a message or a log survive what other nodes do. */
module RaftGrowth {
  import opened Types
  import opened Quorum
  import opened RaftNode
  import opened RaftHistory

  lemma ExtendsRefl(h: History, id: nat)
    ensures Extends(h, h, id)
  {
  }

  lemma ExtendsTrans(h0: History, h1: History, h2: History, id: nat)
    requires Extends(h0, h1, id) && Extends(h1, h2, id)
    ensures Extends(h0, h2, id)
  {
    forall t | t in h2.reigns && t !in h0.reigns
      ensures h2.reigns[t].leader == id && h2.reigns[t].ord >= |h0.reigns|
    {
      if t in h1.reigns {
        assert ReignGrows(h1.reigns[t], h2.reigns[t]);
      }
    }
    forall t | t in h0.reigns ensures ReignGrows(h0.reigns[t], h2.reigns[t]) {
      assert ReignGrows(h0.reigns[t], h1.reigns[t]) && ReignGrows(h1.reigns[t], h2.reigns[t]);
    }
    forall t | t in h0.reigns && h0.reigns[t].leader != id ensures h2.reigns[t] == h0.reigns[t] {
      assert h1.reigns[t] == h0.reigns[t];
    }
  }

  lemma OwnedGrows(h: History, h': History, id: nat, log: seq<Entry>)
    requires Extends(h, h', id) && Owned(h.reigns, log)
    ensures Owned(h'.reigns, log)
  {
    forall j | 0 <= j < |log| ensures OwnedAt(h'.reigns, log, j) {
      assert OwnedAt(h.reigns, log, j);
      assert ReignGrows(h.reigns[log[j].term], h'.reigns[log[j].term]);
    }
  }

  /** A prefix of a good log is good. */
  lemma GoodPrefix(reigns: map<nat, Reign>, log: seq<Entry>, i: nat)
    requires GoodLog(reigns, log) && i <= |log|
    ensures GoodLog(reigns, log[..i])
  {
    forall j | 0 <= j < i ensures OwnedAt(reigns, log[..i], j) {
      assert OwnedAt(reigns, log, j);
      assert log[..i][..j + 1] == log[..j + 1];
    }
  }

  /** Two good logs that agree on the term at an index agree up to that index. */
  lemma LogsMatch(reigns: map<nat, Reign>, a: seq<Entry>, b: seq<Entry>, i: nat)
    requires Owned(reigns, a) && Owned(reigns, b)
    requires 1 <= i <= |a| && i <= |b| && a[i - 1].term == b[i - 1].term
    ensures a[..i] == b[..i]
  {
    assert OwnedAt(reigns, a, i - 1) && OwnedAt(reigns, b, i - 1);
    var r := reigns[a[i - 1].term].log;
    assert a[..i] == r[..i] && b[..i] == r[..i];
  }

  lemma AckedByGrows(h: History, h': History, id: nat, node: nat, term: nat, index: nat)
    requires Extends(h, h', id) && AckedBy(h, node, term, index)
    ensures AckedBy(h', node, term, index)
  {
    var a :| a in h.acks && a.node == node && a.term == term && |a.prefix| >= index;
    assert a in h'.acks;
  }

  lemma ChosenGrows(cfg: Config, h: History, h': History, id: nat, term: nat, index: nat)
    requires Extends(h, h', id) && Chosen(cfg, h, term, index)
    ensures Chosen(cfg, h', term, index)
  {
    QuorumGrows(cfg.voters, Ackers(h, term, index), Ackers(h', term, index));
  }

  lemma CarriedShrinks(h: History, h': History, id: nat, term: nat, b: nat, b': nat, log: seq<Entry>)
    requires Extends(h, h', id) && b <= b' && Carried(h'.reigns, term, b', log)
    ensures Carried(h.reigns, term, b, log)
  {
    forall t | t in h.reigns && term < t && h.reigns[t].ord < b ensures log <= h.reigns[t].init {
      assert ReignGrows(h.reigns[t], h'.reigns[t]);
    }
  }

  lemma KeptGrows(h: History, h': History, id: nat, a: Ack, b: nat, b': nat, log: seq<Entry>)
    requires Extends(h, h', id) && b <= b' && Kept(h.reigns, a, b, log)
    ensures Kept(h'.reigns, a, b', log)
  {
    forall i | 0 <= i <= |a.prefix| && Carried(h'.reigns, a.term, b', a.prefix[..i])
      ensures a.prefix[..i] <= log
    {
      CarriedShrinks(h, h', id, a.term, b, b', a.prefix[..i]);
    }
  }

  lemma FaithfulGrows(h: History, h': History, id: nat, a: Ack, b: nat, b': nat)
    requires Extends(h, h', id) && b <= b' && Faithful(h.reigns, a, b)
    ensures Faithful(h'.reigns, a, b')
  {
    assert ReignGrows(h.reigns[a.term], h'.reigns[a.term]);
    if !(a.prefix <= h.reigns[a.term].log) {
      var t :| t in h.reigns && a.term < t && h.reigns[t].ord < b && a.prefix <= h.reigns[t].init;
      assert ReignGrows(h.reigns[t], h'.reigns[t]);
    }
  }

  lemma AppendGrows(h: History, h': History, id: nat, m: Msg)
    requires Extends(h, h', id) && m.Append? && AppendInv(h, m)
    ensures AppendInv(h', m)
  {
    assert ReignGrows(h.reigns[m.term], h'.reigns[m.term]);
    assert h.reigns[m.term].log[..m.commit] == h'.reigns[m.term].log[..m.commit];
    if AckedBy(h, m.to, m.term, m.prev) {
      AckedByGrows(h, h', id, m.to, m.term, m.prev);
    }
  }

  lemma HeartbeatGrows(cfg: Config, h: History, h': History, id: nat, m: Msg)
    requires Extends(h, h', id) && m.Heartbeat? && MsgInv(cfg, h, m)
    ensures MsgInv(cfg, h', m)
  {
    assert ReignGrows(h.reigns[m.term], h'.reigns[m.term]);
    assert h.reigns[m.term].log[..m.commit] == h'.reigns[m.term].log[..m.commit];
    if m.commit > 0 {
      AckedByGrows(h, h', id, m.to, m.term, m.commit);
    }
  }

  /** What is known of a message stays true. */
  lemma MsgGrows(cfg: Config, h: History, h': History, id: nat, m: Msg)
    requires Extends(h, h', id) && MsgInv(cfg, h, m)
    ensures MsgInv(cfg, h', m)
  {
    if m.Append? {
      AppendGrows(h, h', id, m);
    } else if m.Heartbeat? {
      HeartbeatGrows(cfg, h, h', id, m);
    } else if m.AppendResponse? && !m.reject && m.index > 0 {
      AckedByGrows(h, h', id, m.from, m.term, m.index);
    }
  }

  lemma LogInvGrows(cfg: Config, h: History, h': History, id: nat, n: Node)
    requires Extends(h, h', id) && LogInv(cfg, h, n)
    ensures LogInv(cfg, h', n)
  {
    OwnedGrows(h, h', id, n.log);
  }

  lemma RecordInvGrows(h: History, h': History, id: nat, other: nat, n: Node)
    requires Extends(h, h', id) && RecordInv(h, other, n) && other != id
    ensures RecordInv(h', other, n)
  {
    forall t | t in h'.reigns && h'.reigns[t].leader == other
      ensures t < n.term || (t == n.term && n.role != Candidate)
    {
      assert t in h.reigns;
      assert ReignGrows(h.reigns[t], h'.reigns[t]);
    }
  }

  lemma AckInvGrows(h: History, h': History, id: nat, other: nat, n: Node)
    requires Extends(h, h', id) && AckInv(h, other, n) && other != id
    ensures AckInv(h', other, n)
  {
    forall a | a in h'.acks && a.node == other ensures StillHolds(h'.reigns, n.term, n.committed, n.log, a) {
      assert a in h.acks && StillHolds(h.reigns, n.term, n.committed, n.log, a);
      StillHoldsGrows(h, h', id, n, a);
    }
  }

  lemma StillHoldsGrows(h: History, h': History, id: nat, n: Node, a: Ack)
    requires Extends(h, h', id) && StillHolds(h.reigns, n.term, n.committed, n.log, a)
    ensures StillHolds(h'.reigns, n.term, n.committed, n.log, a)
  {
    KeptGrows(h, h', id, a, |h.reigns|, |h'.reigns|, n.log);
    assert ReignGrows(h.reigns[a.term], h'.reigns[a.term]);
  }

  lemma LeaderInvGrows(cfg: Config, h: History, h': History, id: nat, other: nat, n: Node)
    requires Extends(h, h', id) && LeaderInv(cfg, h, other, n) && h'.reigns[n.term] == h.reigns[n.term]
    ensures LeaderInv(cfg, h', other, n)
  {
    forall i | i in n.matched ensures n.matched[i] == 0 || AckedBy(h', i, n.term, n.matched[i]) {
      if n.matched[i] != 0 {
        AckedByGrows(h, h', id, i, n.term, n.matched[i]);
      }
    }
    if n.committed > |h.reigns[n.term].init| {
      ChosenGrows(cfg, h, h', id, n.term, n.committed);
    }
  }

  /** A node's facts survive the actions of any other node. */
  lemma NodeGrows(cfg: Config, h: History, h': History, id: nat, other: nat, n: Node)
    requires Extends(h, h', id) && NodeInv(cfg, h, other, n) && other != id
    ensures NodeInv(cfg, h', other, n)
  {
    LogInvGrows(cfg, h, h', id, n);
    RecordInvGrows(h, h', id, other, n);
    AckInvGrows(h, h', id, other, n);
    if n.role == Leader {
      LeaderInvGrows(cfg, h, h', id, other, n);
    }
  }
}
