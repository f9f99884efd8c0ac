/**
 * The `Packet` envelope: one variant per connection phase, each holding
 * that phase's packet family. The handshake and status families are not
 * part of this model, so the envelope is generic in their types.
 */
module Packets {
  import opened Protocol
  import Game
  import Login

  datatype Packet<Handshake, Status> =
    | Game(game: Game.GamePacket)
    | Handshake(handshake: Handshake)
    | Login(login: Login.LoginPacket)
    | Status(status: Status)

  /** The phase whose family a packet belongs to. */
  function ProtocolOf<H, S>(p: Packet<H, S>): ConnectionProtocol
  {
    match p
    case Game(_) => ConnectionProtocol.Game
    case Handshake(_) => ConnectionProtocol.Handshake
    case Login(_) => ConnectionProtocol.Login
    case Status(_) => ConnectionProtocol.Status
  }

  /** The packet of phase `c` built from the family values given for each phase. */
  function Envelope<H, S>(c: ConnectionProtocol, g: Game.GamePacket, h: H, l: Login.LoginPacket, s: S): (p: Packet<H, S>)
    ensures ProtocolOf(p) == c
  {
    match c
    case Game => Packet.Game(g)
    case Handshake => Packet.Handshake(h)
    case Login => Packet.Login(l)
    case Status => Packet.Status(s)
  }

  /**
   * Exactly one variant per phase: two packets are of the same phase if and
   * only if they are the same variant (`Envelope` gives every phase its variant).
   */
  lemma OneVariantPerPhase<H, S>(p: Packet<H, S>, q: Packet<H, S>)
    ensures ProtocolOf(p) == ProtocolOf(q) <==>
            (p.Game? && q.Game?) || (p.Handshake? && q.Handshake?) || (p.Login? && q.Login?) || (p.Status? && q.Status?)
  {
  }

  /** The wire tag of a packet's phase determines the phase, so the variant. */
  lemma TagDeterminesVariant<H, S>(p: Packet<H, S>, q: Packet<H, S>)
    requires Tag(ProtocolOf(p)) == Tag(ProtocolOf(q))
    ensures (p.Game? && q.Game?) || (p.Handshake? && q.Handshake?) || (p.Login? && q.Login?) || (p.Status? && q.Status?)
  {
    TagInjective(ProtocolOf(p), ProtocolOf(q));
  }
}
