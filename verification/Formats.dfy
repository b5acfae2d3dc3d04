/** Serialization formats and their negotiation. */
module Formats {
  import opened Basics

  datatype Format = Json | Bincode

  const DEFAULT_SUPPORTED_FORMATS: seq<Format> := [Bincode, Json]

  function SupportedFor(preferred: Format): seq<Format> {
    match preferred
    case Json => [Json]
    case Bincode => DEFAULT_SUPPORTED_FORMATS
  }

  function FirstShared(local: seq<Format>, peer: seq<Format>): Option<Format> {
    if local == [] then None
    else if local[0] in peer then Some(local[0])
    else FirstShared(local[1..], peer)
  }

  function Negotiate(preferred: Format, peer: seq<Format>): Option<Format> {
    if preferred in peer && preferred in SupportedFor(preferred) then Some(preferred)
    else FirstShared(SupportedFor(preferred), peer)
  }

  lemma {:induction false} FirstSharedIsShared(local: seq<Format>, peer: seq<Format>)
    ensures FirstShared(local, peer).Some? ==> FirstShared(local, peer).value in local && FirstShared(local, peer).value in peer
    ensures FirstShared(local, peer).None? ==> forall f :: f in local ==> f !in peer
  {
    if local == [] {
    } else {
      FirstSharedIsShared(local[1..], peer);
    }
  }

  /** The outcome is a format both sides support; there is none only when they share none. */
  lemma NegotiateIsShared(preferred: Format, peer: seq<Format>)
    ensures var r := Negotiate(preferred, peer);
            && (r.Some? ==> r.value in SupportedFor(preferred) && r.value in peer)
            && (r.None? ==> forall f :: f in SupportedFor(preferred) ==> f !in peer)
            && (preferred in peer ==> r == Some(preferred))
  {
    FirstSharedIsShared(SupportedFor(preferred), peer);
  }

  /** Only a node that prefers bincode speaks it, and then falls back on JSON; the others speak JSON alone. */
  lemma NegotiateExactly(preferred: Format, peer: seq<Format>)
    ensures Negotiate(preferred, peer) ==
            if preferred.Bincode? && Bincode in peer then Some(Bincode) else if Json in peer then Some(Json) else None
  {
    NegotiateIsShared(preferred, peer);
    assert Json in SupportedFor(preferred);
  }

  /** Two nodes of this implementation always agree: on bincode when both prefer it, else on JSON. */
  lemma NodesAlwaysAgree(a: Format, b: Format)
    ensures Negotiate(a, SupportedFor(b)) == Some(if a.Bincode? && b.Bincode? then Bincode else Json)
  {
    NegotiateExactly(a, SupportedFor(b));
    assert Json in SupportedFor(b);
  }
}
