/** An application that hands its bytes to a writer of chunks, a bounded piece at a time. */
module Offers {
  import opened Bytes

  /** The most a chunk takes of what is offered. */
  function Capped(limit: nat, data: bytes): bytes {
    if |data| < limit then data else data[..limit]
  }

  /** The chunks framed so far carry the bytes accepted so far, and then at most the chunk under way. */
  ghost predicate Progress(
      limit: nat, app: bytes, accepted: nat, offer: bytes, chunks: seq<bytes>, writing: bool, stopped: bool) {
    && accepted <= |app|
    && (writing ==> offer <= app[accepted..] && chunks != [] && chunks[|chunks| - 1] == Capped(limit, offer))
    && (if stopped then Flatten(chunks) <= app
        else Flatten(chunks) == app[..accepted] + (if writing then Capped(limit, offer) else []))
  }

  lemma CappedOffer(limit: nat, app: bytes, accepted: nat, offer: bytes)
    requires accepted <= |app| && offer <= app[accepted..]
    ensures |Capped(limit, offer)| <= limit && accepted + |Capped(limit, offer)| <= |app|
    ensures app[..accepted] + Capped(limit, offer) == app[..accepted + |Capped(limit, offer)|]
    ensures limit > 0 && offer != [] ==> Capped(limit, offer) != []
  {
  }

  /** A poll of the writer, from the offer to its outcome. */
  lemma ProgressPoll(limit: nat, app: bytes, accepted: nat, offer: bytes, chunks: seq<bytes>, writing: bool)
    requires Progress(limit, app, accepted, offer, chunks, writing, false) && accepted <= |app| && offer <= app[accepted..]
    ensures Progress(limit, app, accepted, offer, chunks, writing, true)
    ensures var after := if writing then chunks else chunks + [Capped(limit, offer)];
            && after != [] && after[|after| - 1] == Capped(limit, offer) && accepted + |Capped(limit, offer)| <= |app|
            && Progress(limit, app, accepted, offer, after, true, false)
            && Progress(limit, app, accepted, offer, after, false, true)
            && Progress(limit, app, accepted + |Capped(limit, offer)|, offer, after, false, false)
  {
    CappedOffer(limit, app, accepted, offer);
    FlattenSnoc(chunks, Capped(limit, offer));
    var n := accepted + |Capped(limit, offer)|;
    assert app[..n] + [] == app[..n] && app[..accepted] + [] == app[..accepted];
    assert Flatten(chunks) <= app;
  }

  /** Between two writes the application may offer anything else. */
  lemma ProgressOffer(limit: nat, app: bytes, accepted: nat, offer: bytes, chunks: seq<bytes>, other: bytes)
    requires Progress(limit, app, accepted, offer, chunks, false, false)
    ensures accepted <= |app| && Progress(limit, app, accepted, other, chunks, false, false)
  {
  }

  lemma ProgressIs(limit: nat, app: bytes, accepted: nat, offer: bytes, chunks: seq<bytes>, writing: bool, stopped: bool)
    requires Progress(limit, app, accepted, offer, chunks, writing, stopped)
    ensures accepted <= |app| && (writing ==> offer <= app[accepted..]) && Flatten(chunks) <= app
    ensures !stopped && !writing ==> Flatten(chunks) == app[..accepted]
  {
    if writing {
      CappedOffer(limit, app, accepted, offer);
    }
    assert app[..accepted] + [] == app[..accepted];
  }
}
