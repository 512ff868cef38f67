/** Subprotocol negotiation: the server's choice of the Sec-WebSocket-Protocol
    value (section 4.2.2 of RFC 6455). The server walks its supported
    subprotocols in configured order and picks the first one the client asked for. */
module SubProtocols {
  import opened Wrappers

  /** A text subprotocol, identified by its name. Its payload encoding is not modelled. */
  datatype SubProtocol = SubProtocol(name: string)

  /** `subProtocol?.SubProtocol`: the name handed to the handshake, or null. */
  function NameOf(p: Option<SubProtocol>): (r: Option<string>)
    ensures r.Some? <==> p.Some?
    ensures p.Some? ==> r.value == p.value.name
  {
    match p
    case Some(s) => Some(s.name)
    case None => None
  }

  /** Entry i of `supported` is requested and no earlier entry is. */
  predicate IsFirstMatch(supported: seq<SubProtocol>, requested: seq<string>, i: int) {
    0 <= i < |supported| && supported[i].name in requested &&
    forall j | 0 <= j < i :: supported[j].name !in requested
  }

  /** The reference definition of negotiation: first supported entry whose name is requested. */
  function FirstMatch(supported: seq<SubProtocol>, requested: seq<string>): (r: Option<SubProtocol>)
    ensures r.None? <==> forall j | 0 <= j < |supported| :: supported[j].name !in requested
    ensures r.Some? ==> exists i :: IsFirstMatch(supported, requested, i) && r.value == supported[i]
    ensures requested == [] ==> r.None?
  {
    if supported == [] then None
    else if supported[0].name in requested then
      assert IsFirstMatch(supported, requested, 0);
      Some(supported[0])
    else
      var rest := FirstMatch(supported[1..], requested);
      assert rest.Some? ==> exists i :: IsFirstMatch(supported, requested, i) && rest.value == supported[i] by {
        if rest.Some? {
          var i :| IsFirstMatch(supported[1..], requested, i) && rest.value == supported[1..][i];
          assert IsFirstMatch(supported, requested, i + 1);
        }
      }
      assert rest.None? ==> forall j | 0 <= j < |supported| :: supported[j].name !in requested by {
        if rest.None? {
          forall j | 0 <= j < |supported| ensures supported[j].name !in requested {
            if j > 0 { assert supported[j] == supported[1..][j - 1]; }
          }
        }
      }
      rest
  }

  /** The first match is unique: whatever entry is the first requested one is the result. */
  lemma {:induction false} FirstMatchIsUnique(supported: seq<SubProtocol>, requested: seq<string>, i: int)
    requires IsFirstMatch(supported, requested, i)
    ensures FirstMatch(supported, requested) == Some(supported[i])
  {
    var r := FirstMatch(supported, requested);
    assert r.Some?;
    var k :| IsFirstMatch(supported, requested, k) && r.value == supported[k];
    assert !(k < i) && !(i < k);
  }

  /** Only membership in the requested list matters: reordering it or repeating
      names gives the same result. */
  lemma {:induction false} NegotiationIgnoresOrderAndRepetition(supported: seq<SubProtocol>, requested: seq<string>, other: seq<string>)
    requires forall name :: name in requested <==> name in other
    ensures FirstMatch(supported, requested) == FirstMatch(supported, other)
  {
    if supported != [] && supported[0].name !in requested {
      NegotiationIgnoresOrderAndRepetition(supported[1..], requested, other);
    }
  }

  /** Server priority wins over client order. */
  lemma ServerPriorityScenario()
    ensures FirstMatch([SubProtocol("chat.v2"), SubProtocol("chat.v1")], ["chat.v1", "chat.v3"])
            == Some(SubProtocol("chat.v1"))
  {
  }
}
