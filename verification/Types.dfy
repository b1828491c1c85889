/** Algorithms, text encodings, keys, identifiers and errors. */
module Types {
  import opened Basics

  datatype Alg = Siv | GcmSiv {

    function Code(): (c: char) {
      match this
      case Siv => '0'
      case GcmSiv => '1'
    }

    static function FromCode(c: char): (r: Option<Alg>)
      ensures forall alg :: r == Some(alg) <==> c == alg.Code()
    {
      if c == '0' then Some(Siv) else if c == '1' then Some(GcmSiv) else None
    }
  }

  datatype Encoding = B64 | Hex {

    function Separator(): (c: char) {
      match this
      case B64 => '.'
      case Hex => '~'
    }

    static function FromSeparator(c: char): (r: Option<Encoding>)
      ensures forall enc :: r == Some(enc) <==> c == enc.Separator()
    {
      if c == '.' then Some(B64) else if c == '~' then Some(Hex) else None
    }
  }

  type Key = k: seq<byte> | |k| == 64 witness seq(64, _ => 0)

  type Uuid = u: seq<byte> | |u| == 16 witness seq(16, _ => 0)

  /** Version field 7 and the RFC 4122 variant, 0b10. */
  predicate IsUuidV7(u: Uuid)
  {
    u[6] / 16 == 7 && u[8] / 64 == 2
  }

  /** The published key under which manifests are sealed. */
  const MANIFEST_KEY: Key :=
    [0x38, 0x12, 0x84, 0x63, 0x3d, 0x02, 0xea, 0x5f] + [0x35, 0xdf, 0x85, 0x96, 0xb5, 0xcc, 0x42, 0x18]
    + [0x31, 0x00, 0x60, 0x46, 0x8e, 0x8b, 0x46, 0x54] + [0x55, 0xa4, 0x15, 0x17, 0x4e, 0xa6, 0xe9, 0x66]
    + [0xa9, 0xf4, 0x8e, 0xec, 0x4b, 0xa4, 0x46, 0xdd] + [0xfc, 0x8b, 0x78, 0x58, 0x78, 0x95, 0x35, 0x6f]
    + [0x45, 0xa7, 0x5a, 0x1a, 0xb7, 0x41, 0x94, 0x54] + [0xdd, 0x9f, 0x7a, 0xa8, 0xa9, 0x5d, 0xbd, 0xd5]

  /** Why a verification was rejected. */
  datatype Reason =
    | Malformed | Unsupported | AuthFailed | EmptyMandate | BadTid | MissingClause | Expired
    | AudienceMismatch | NonCanonical | BadType | UnknownReservedKey

  /** Why a token could not be minted. */
  datatype MintError =
    | MissingExp | EmptyAudience | InvalidTid | UnsupportedAlg(alg: Alg) | AppNotMap | ReservedKey | Nan
}
