/** params.h of the three parameter sets. */
module Params {
  import opened Rounding
  import opened BitPack

  /** The three parameter sets, one per directory of the source. */
  datatype Params = Mldsa44 | Mldsa65 | Mldsa87
  {
    function K(): (k: nat)
      ensures 0 < k <= 8
    {
      match this case Mldsa44 => 4 case Mldsa65 => 6 case Mldsa87 => 8
    }

    function L(): (l: nat)
      ensures 0 < l <= 7
    {
      match this case Mldsa44 => 4 case Mldsa65 => 5 case Mldsa87 => 7
    }

    function Eta(): int { if Mldsa65? then 4 else 2 }

    function Tau(): nat { match this case Mldsa44 => 39 case Mldsa65 => 49 case Mldsa87 => 60 }

    function Beta(): int { match this case Mldsa44 => 78 case Mldsa65 => 196 case Mldsa87 => 120 }

    function Gamma1(): int { if Mldsa44? then 0x2_0000 else 0x8_0000 }

    function Gamma2(): (g: int)
      ensures IsGamma2(g)
    {
      if Mldsa44? then GAMMA2_88 else GAMMA2_32
    }

    function Omega(): nat { match this case Mldsa44 => 80 case Mldsa65 => 55 case Mldsa87 => 75 }

    function CTildeBytes(): nat { match this case Mldsa44 => 32 case Mldsa65 => 48 case Mldsa87 => 64 }

    function EtaFormat(): Format { if Mldsa65? then Eta4 else Eta2 }

    function ZFormat(): Format { if Mldsa44? then Z18 else Z20 }

    function W1Format(): Format { if Mldsa44? then W6 else W4 }

    function PkBytes(): (n: nat)
      ensures n >= 32
    {
      32 + K() * 320
    }

    function SkBytes(): (n: nat)
      ensures n >= 128
    {
      128 + L() * PolyBytes(EtaFormat()) + K() * PolyBytes(EtaFormat()) + K() * 416
    }

    function SigBytes(): nat { CTildeBytes() + L() * PolyBytes(ZFormat()) + Omega() + K() }
  }
}
