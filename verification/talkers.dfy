/** The talker-id table of the generated code: the two-letter prefixes that the
    address parser strips from a sentence's address token. */
module Talkers {
  import opened Common

  /** The talker identifiers the program names in its `TalkerIds` enumeration. */
  datatype TalkerId =
    | GP | GL | GA | GQ | GB | BD | GN
    | AI | AG | AP | IN | II | P | RA | SD | SS | TI | VD | VM | VW | WI

  /** The ASCII letters of an enumerated identifier. */
  function Code(t: TalkerId): (c: seq<byte>)
    ensures |c| == (if t == P then 1 else 2)
  {
    match t
    case GP => [0x47, 0x50]
    case GL => [0x47, 0x4C]
    case GA => [0x47, 0x41]
    case GQ => [0x47, 0x51]
    case GB => [0x47, 0x42]
    case BD => [0x42, 0x44]
    case GN => [0x47, 0x4E]
    case AI => [0x41, 0x49]
    case AG => [0x41, 0x47]
    case AP => [0x41, 0x50]
    case IN => [0x49, 0x4E]
    case II => [0x49, 0x49]
    case P => [0x50]
    case RA => [0x52, 0x41]
    case SD => [0x53, 0x44]
    case SS => [0x53, 0x53]
    case TI => [0x54, 0x49]
    case VD => [0x56, 0x44]
    case VM => [0x56, 0x4D]
    case VW => [0x56, 0x57]
    case WI => [0x57, 0x49]
  }

  /** The table that is actually consulted: only "GP" and "GL". */
  const ALL_TALKER_IDS: seq<seq<byte>> := [[0x47, 0x50], [0x47, 0x4C]]

  /** Membership of a two-byte prefix in the table; a prefix of any other
      length is a failed assertion in the source, so it is excluded here. */
  function IsTalkerId(v: seq<byte>): (b: bool)
    requires |v| == 2
    ensures b <==> v[0] == 0x47 && (v[1] == 0x50 || v[1] == 0x4C)
  {
    var s: seq<byte> := [v[0], v[1]];
    s in ALL_TALKER_IDS
  }

  /** Of all the enumerated two-letter identifiers, exactly GP and GL are
      recognised: GN, BD, AI and the rest are in the enumeration but not in
      the table. */
  lemma OnlyGpAndGlRecognised(t: TalkerId)
    requires t != P
    ensures IsTalkerId(Code(t)) <==> t == GP || t == GL
  {
  }

  /** The test looks at both bytes in order: "PG" is not "GP". */
  lemma ByteOrderMatters()
    ensures IsTalkerId([0x47, 0x50]) && !IsTalkerId([0x50, 0x47])
    ensures IsTalkerId([0x47, 0x4C]) && !IsTalkerId([0x4C, 0x47])
  {
  }
}
