/** The packet handler object: the recovery flag, the online callback, and the calls that use
    them, one thread at a time.  Interleavings are the subject of module Recovery. */
module Handler {
  import Octets
  import Agg = Aggregator
  import Backoff
  import Envelope
  import Outbound
  import Smtp

  class PacketHandler {
    const relay: Smtp.Relay
    const online: Agg.OnlineAggregator
    const delay: Backoff.Duration
    const maxDelay: Backoff.Duration
    var recovering: bool

    constructor (relay: Smtp.Relay, online: Agg.OnlineAggregator, delay: Backoff.Duration, maxDelay: Backoff.Duration)
      ensures this.relay == relay && this.online == online && this.delay == delay && this.maxDelay == maxDelay
      ensures !recovering
    {
      this.relay, this.online, this.delay, this.maxDelay := relay, online, delay, maxDelay;
      recovering := false;
    }

    method CompareAndSwap(was: bool, update: bool) returns (swapped: bool)
      modifies this`recovering
      ensures swapped == (old(recovering) == was)
      ensures recovering == if swapped then update else old(recovering)
    {
      swapped := recovering == was;
      if swapped { recovering := update; }
    }

    /** Only the caller that sets the flag signals offline and starts a recovery task. */
    method BeginRecovery() returns (spawned: bool)
      modifies this`recovering, online
      ensures spawned == (delay > 0 && !old(recovering))
      ensures recovering == (old(recovering) || spawned)
      ensures online.Snapshot() ==
              if spawned then Agg.Set(old(online.Snapshot()), Agg.Smtp(false)) else old(online.Snapshot())
    {
      spawned := false;
      if delay > 0 {
        var won := CompareAndSwap(false, true);
        if won {
          online.SetSmtp(false);
          spawned := true;
        }
      }
    }

    /** The whole send callback: the sends of one packet, and recovery begun exactly when the
        last outcome was unknown or the retries are exhausted. */
    method HandlePacket(lib: Envelope.Library, p: Envelope.Params, uuid: Octets.Bytes, date: Octets.Bytes,
                        script: seq<Outbound.Attempt>)
      returns (spawned: bool)
      requires |script| == Outbound.MAX_RETRIES
      modifies this`recovering, online, relay
      ensures var sent := p.from != [] && p.to != [] && p.packet != [];
              var results := if sent then Outbound.Results(script, relay.startTls) else [];
              var msg := Envelope.Enveloped(p, Envelope.MessageId(lib, p.from, uuid), date);
              && spawned == (Outbound.NeedsRecovery(results) && delay > 0 && !old(recovering))
              && relay.mail == old(relay.mail) +
                               (if sent then Outbound.Repeat(msg, Outbound.Kept(script, relay.startTls)) else [])
      ensures recovering == (old(recovering) || spawned)
      ensures online.Snapshot() ==
              if spawned then Agg.Set(old(online.Snapshot()), Agg.Smtp(false)) else old(online.Snapshot())
    {
      hide Envelope.Enveloped, Envelope.MessageId, Outbound.Results, Outbound.Kept, Outbound.Repeat;
      var results, waits, recover := Outbound.HandlePacket(lib, p, uuid, date, relay, script);
      spawned := false;
      if recover { spawned := BeginRecovery(); }
    }

    /** A good probe signals online whatever the flag says; a bad one enters recovery. */
    method StartupProbe(stages: Smtp.Stages) returns (spawned: bool)
      modifies this`recovering, online
      ensures var ok := Smtp.Connects(stages, relay.startTls);
              && spawned == (!ok && delay > 0 && !old(recovering))
              && recovering == (old(recovering) || spawned)
              && online.Snapshot() ==
                 (if ok then Agg.Set(old(online.Snapshot()), Agg.Smtp(true))
                  else if spawned then Agg.Set(old(online.Snapshot()), Agg.Smtp(false))
                  else old(online.Snapshot()))
    {
      var ok := Smtp.Probe(relay, stages);
      if !ok {
        spawned := BeginRecovery();
        return;
      }
      online.SetSmtp(true);
      spawned := false;
    }

    /** The recovery task: it clears the flag however it ends, after signalling online if a
        probe succeeded. */
    method RecoveryTask(rounds: seq<Outbound.ProbeRound>) returns (end: Outbound.ProbeEnd, waits: seq<Backoff.Duration>)
      requires recovering && Backoff.Validated(delay, maxDelay)
      modifies this`recovering, online
      ensures end == Outbound.Probing ==> recovering && |waits| == |rounds|
      ensures end != Outbound.Probing ==> !recovering
      ensures online.Snapshot() ==
              if end == Outbound.BackOnline then Agg.Set(old(online.Snapshot()), Agg.Smtp(true)) else old(online.Snapshot())
      ensures end == Outbound.BackOnline <==>
              exists k :: 0 <= k < |rounds| && rounds[k].Probed? && Smtp.Connects(rounds[k].stages, relay.startTls)
                          && forall j :: 0 <= j < k ==> rounds[j].Probed?
    {
      end, waits := Outbound.Recover(relay, delay, maxDelay, rounds);
      if end == Outbound.BackOnline {
        online.SetSmtp(true);
      }
      if end != Outbound.Probing {
        recovering := false;
      }
    }
  }
}
