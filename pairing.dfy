/** Group-size check and neighbour pairing of test_comm.c (main, lines 39-46):
    every rank is matched with an adjacent rank; even ranks send, odd ranks
    receive. */
module Pairing {
  import opened CSemantics

  /** The role a rank plays for the whole run. */
  datatype Role = Sender | Receiver

  /** What main computes for one rank: its partner and whether it is the sender. */
  datatype Assignment = Assignment(partner: int, role: Role)

  /** The condition of `assert(sz % 2 == 0)`, with C's remainder. */
  predicate EvenGroup(sz: int)
  {
    CRem(sz, 2) == 0
  }

  /** The pairing rule: an even rank is paired with the next rank and sends,
      an odd rank with the previous one and receives. */
  function Assign(myid: int): (a: Assignment)
    ensures a.partner == myid + 1 || a.partner == myid - 1
    ensures a.role == Sender <==> a.partner == myid + 1
    ensures a.role == Sender <==> myid % 2 == 0
  {
    CRemTwo(myid);
    if CRem(myid, 2) == 0 then Assignment(myid + 1, Sender)
    else Assignment(myid - 1, Receiver)
  }

  /** The group-size assertion followed by the pairing: `None` when the
      assertion aborts the process, before any phase has started. */
  function Setup(sz: int, myid: int): (r: Option<Assignment>)
    ensures r.None? <==> !EvenGroup(sz)
    ensures r.Some? ==> r.value == Assign(myid)
    ensures r.Some? && 0 <= myid < sz ==> 0 <= r.value.partner < sz && r.value.partner != myid
  {
    if !EvenGroup(sz) then None
    else if 0 <= myid < sz then PartnerInRange(sz, myid); Some(Assign(myid))
    else Some(Assign(myid))
  }

  /** In an even group every rank's partner is another member of the group. */
  lemma PartnerInRange(sz: int, myid: int)
    requires EvenGroup(sz) && 0 <= myid < sz
    ensures 0 <= Assign(myid).partner < sz
    ensures Assign(myid).partner != myid
  {
    CRemTwo(sz);
    CRemTwo(myid);
  }

  /** A rank is the sender exactly when its identity is even. */
  lemma SenderIffEven(myid: int)
    ensures Assign(myid).role == Sender <==> myid % 2 == 0
    ensures Assign(myid).role == Receiver <==> myid % 2 == 1
  {
    CRemTwo(myid);
  }

  /** Pairing is an involution: the partner of my partner is me. */
  lemma PartnerInvolution(myid: int)
    ensures Assign(Assign(myid).partner).partner == myid
  {
    CRemTwo(myid);
    CRemTwo(Assign(myid).partner);
  }

  /** The two ranks of a pair never have the same role. */
  lemma PartnersHaveOppositeRoles(myid: int)
    ensures Assign(Assign(myid).partner).role != Assign(myid).role
  {
    CRemTwo(myid);
    CRemTwo(Assign(myid).partner);
  }

  /** The ranks of a group of size `sz` that send, and those that receive. */
  function Senders(sz: int): set<int>
  {
    set x | 0 <= x < sz && Assign(x).role == Sender
  }

  function Receivers(sz: int): set<int>
  {
    set x | 0 <= x < sz && Assign(x).role == Receiver
  }

  /** In an even group, exactly half of the ranks send and half receive. */
  lemma {:induction false} HalfOfGroupSends(sz: int)
    requires EvenGroup(sz) && sz >= 0
    ensures |Senders(sz)| == sz / 2
    ensures |Receivers(sz)| == sz / 2
  {
    CRemTwo(sz);
    if sz == 0 {
      assert Senders(0) == {};
      assert Receivers(0) == {};
    } else {
      var n := sz - 2;
      CRemTwo(n);
      HalfOfGroupSends(n);
      SenderIffEven(n);
      SenderIffEven(n + 1);
      GrowByPair(n);
    }
  }

  /** Adding the pair `n, n + 1` to a group adds `n` to the senders and
      `n + 1` to the receivers. */
  lemma GrowByPair(n: int)
    requires 0 <= n && Assign(n).role == Sender && Assign(n + 1).role == Receiver
    ensures Senders(n + 2) == Senders(n) + {n} && n !in Senders(n)
    ensures Receivers(n + 2) == Receivers(n) + {n + 1} && n + 1 !in Receivers(n)
  {
    forall x | x in Senders(n + 2) ensures x in Senders(n) || x == n {
      if x != n {
        assert x != n + 1;
        assert 0 <= x < n && Assign(x).role == Sender;
      }
    }
    forall x | x in Receivers(n + 2) ensures x in Receivers(n) || x == n + 1 {
      if x != n + 1 {
        assert x != n;
        assert 0 <= x < n && Assign(x).role == Receiver;
      }
    }
  }

  /** In an even group the pairing is a perfect matching: every rank is a
      sender or a receiver and not both, every sender is paired with a
      receiver of the group and vice versa, and the partners of the senders
      are exactly the receivers. */
  lemma PerfectMatching(sz: int)
    requires EvenGroup(sz)
    ensures Senders(sz) !! Receivers(sz)
    ensures forall x :: 0 <= x < sz <==> x in Senders(sz) + Receivers(sz)
    ensures forall s :: s in Senders(sz) ==> Assign(s).partner in Receivers(sz)
    ensures forall r :: r in Receivers(sz) ==> Assign(r).partner in Senders(sz)
    ensures Receivers(sz) == set s | s in Senders(sz) :: Assign(s).partner
  {
    forall x | 0 <= x < sz
      ensures 0 <= Assign(x).partner < sz
      ensures Assign(Assign(x).partner).role != Assign(x).role
      ensures Assign(Assign(x).partner).partner == x
    {
      PartnerInRange(sz, x);
      PartnersHaveOppositeRoles(x);
      PartnerInvolution(x);
    }
    var image := set s | s in Senders(sz) :: Assign(s).partner;
    forall r | r in Receivers(sz) ensures r in image {
      var s := Assign(r).partner;
      assert s in Senders(sz) && Assign(s).partner == r;
    }
  }
}
