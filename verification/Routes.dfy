/**
 The two routes in front of the limiter, as one request sees them: check, act,
 record, in that order. The outcome of the mail server is a parameter.
 */
module Routes {
  import opened Prelude
  import opened SlidingWindow
  import opened Clients
  import opened Limiter
  import FrontDoor

  datatype Delivery = Sent | Rejected | Undelivered

  datatype Reply = Unavailable | TooMany(retryAfter: nat) | Accepted | Unprocessable | BadGateway

  /** The steps of an undisturbed message among those of all other requests. */
  function Messaged(d: FrontDoor.Door, id: nat, ip: string, honeypot: bool, delivery: Delivery, checkAt: Time,
                    recordAt: Time,
                    cap: nat): FrontDoor.Door
  {
    if honeypot then FrontDoor.Apply(d, FrontDoor.Honeypot(ip, checkAt, recordAt), cap)
    else
      var checked := FrontDoor.Apply(d, FrontDoor.ContactCheck(id, ip, checkAt), cap);
      if id !in checked.pending then checked
      else if delivery.Sent? then FrontDoor.Apply(checked, FrontDoor.Delivered(id, recordAt), cap)
      else FrontDoor.Apply(checked, FrontDoor.NotDelivered(id, recordAt), cap)
  }

  /** They leave the map that the one call leaves, and the other requests in flight as they were. */
  lemma MessageIsSteps(d: FrontDoor.Door, id: nat, ip: string, honeypot: bool, delivery: Delivery, checkAt: Time,
                       recordAt: Time, cap: nat)
    requires id !in d.pending
    ensures var k := Key(Contact, ip);
            var looked := Checked(d.table, k, checkAt, [CONTACT_BURST, CONTACT_HOURLY]);
            var passes := Verdict(Deque(d.table, k), checkAt, [CONTACT_BURST, CONTACT_HOURLY]).None?;
            var after := Messaged(d, id, ip, honeypot, delivery, checkAt, recordAt, cap);
            && after.pending == d.pending
            && after.table == if passes
                && (honeypot || delivery.Sent?) then Recorded(looked, k, recordAt, cap) else looked
    ensures d.clock <= checkAt <= recordAt ==>
              var checked := FrontDoor.Apply(d, FrontDoor.ContactCheck(id, ip, checkAt), cap);
              && FrontDoor.Timely(d, FrontDoor.Honeypot(ip, checkAt, recordAt))
              && FrontDoor.Timely(d, FrontDoor.ContactCheck(id, ip, checkAt))
              && (id in checked.pending ==>
                    && FrontDoor.Timely(checked, FrontDoor.Delivered(id, recordAt))
                    && FrontDoor.Timely(checked, FrontDoor.NotDelivered(id, recordAt)))
  {
  }

  /**
   A message that looks accepted is recorded, to a bot as well; one that is
   refused or fails is only looked at, and an unconfigured form not even that.
   */
  method SubmitContactMessage(limiter: RateLimiter, configured: bool, ip: string, honeypot: bool, delivery: Delivery,
                              checkAt: Time, recordAt: Time)
    returns (reply: Reply)
    requires Valid(limiter.State())
    modifies limiter
    ensures Valid(limiter.State())
    ensures !configured ==> reply == Unavailable && limiter.State() == old(limiter.State())
    ensures configured ==>
              var verdict := Verdict(Deque(old(limiter.State()), Key(Contact, ip)), checkAt,
                  [CONTACT_BURST, CONTACT_HOURLY]);
              && (reply.TooMany? <==> verdict.Some?)
              && (reply.TooMany? ==> reply.retryAfter == verdict.value)
              && (verdict.None? ==> (reply.Accepted? <==> honeypot || delivery.Sent?))
              && (reply.Unprocessable? <==> verdict.None? && !honeypot && delivery.Rejected?)
              && (reply.BadGateway? <==> verdict.None? && !honeypot && delivery.Undelivered?)
              && !reply.Unavailable?
    ensures configured ==>
              var looked := Checked(old(limiter.State()), Key(Contact, ip), checkAt, [CONTACT_BURST, CONTACT_HOURLY]);
              && (reply.Accepted? ==> limiter.State() == Recorded(looked, Key(Contact, ip), recordAt, limiter.capacity))
              && (!reply.Accepted? ==> limiter.State() == looked)
    ensures configured ==> forall d: FrontDoor.Door, id: nat :: d.table == old(limiter.State()) && id !in d.pending ==>
              Messaged(d, id, ip, honeypot, delivery, checkAt, recordAt, limiter.capacity).table == limiter.State()
  {
    forall d: FrontDoor.Door, id: nat | id !in d.pending {
      MessageIsSteps(d, id, ip, honeypot, delivery, checkAt, recordAt, limiter.capacity);
    }
    if !configured {
      return Unavailable;
    }
    var k := Key(Contact, ip);
    var retry := limiter.Check(k, checkAt, [CONTACT_BURST, CONTACT_HOURLY]);
    if retry.Some? {
      return TooMany(retry.value);
    }
    if honeypot {
      limiter.Record(k, recordAt);
      return Accepted;
    }
    match delivery {
      case Rejected => return Unprocessable;
      case Undelivered => return BadGateway;
      case Sent =>
    }
    limiter.Record(k, recordAt);
    reply := Accepted;
  }

  /**
   The beacon route tests the wait for truth, so a wait of 0 would let a refused
   beacon pass; a wait is never 0, and the two tests agree.
   */
  method AdmitBeacon(limiter: RateLimiter, ip: string, checkAt: Time, recordAt: Time) returns (passes: bool)
    requires Valid(limiter.State())
    modifies limiter
    ensures Valid(limiter.State())
    ensures var k, before := Key(Analytics, ip), old(limiter.State());
            var looked := Checked(before, k, checkAt, [ANALYTICS_PER_IP]);
            && (passes <==> Verdict(Deque(before, k), checkAt, [ANALYTICS_PER_IP]).None?)
            && limiter.State() == (if passes then Recorded(looked, k, recordAt, limiter.capacity) else looked)
  {
    var k := Key(Analytics, ip);
    var retry := limiter.Check(k, checkAt, [ANALYTICS_PER_IP]);
    if retry.Some? && retry.value != 0 {
      return false;
    }
    limiter.Record(k, recordAt);
    passes := true;
  }

  /** A request that nobody interrupts does to the map what its steps do. */
  lemma RequestsAreSteps(d: FrontDoor.Door, ip: string, id: nat, checkAt: Time, recordAt: Time, cap: nat)
    ensures FrontDoor.Apply(d, FrontDoor.Beacon(ip, checkAt, recordAt), cap).table ==
            (var k := Key(Analytics, ip);
             var looked := Checked(d.table, k, checkAt, [ANALYTICS_PER_IP]);
             if Verdict(Deque(d.table, k), checkAt, [ANALYTICS_PER_IP]).None? then
               Recorded(looked, k, recordAt, cap)
             else looked)
    ensures d.clock <= checkAt <= recordAt ==> FrontDoor.Timely(d, FrontDoor.Beacon(ip, checkAt, recordAt))
    ensures var k, checked := Key(Contact, ip), FrontDoor.Apply(d, FrontDoor.ContactCheck(id, ip, checkAt), cap);
            Verdict(Deque(d.table, k), checkAt, [CONTACT_BURST, CONTACT_HOURLY]).None? ==>
              FrontDoor.Apply(checked, FrontDoor.Delivered(id, recordAt), cap).table ==
              Recorded(Checked(d.table, k, checkAt, [CONTACT_BURST, CONTACT_HOURLY]), k, recordAt, cap)
  {
  }
}
