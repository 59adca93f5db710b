/** `src/utils/formatBytes.ts`: a byte count shown in the largest binary unit
    that keeps the magnitude below 1024. Numbers are `real`: dividing by 1024
    is exact in binary floating point, so no rounding is lost. */
module FormatBytes {
  import opened Json

  /** 1024 to the power `k`. */
  function Pow1024(k: nat): (p: real)
    ensures p >= 1.0
  {
    if k == 0 then 1.0 else 1024.0 * Pow1024(k - 1)
  }

  const Units: seq<string> := ["B", "KiB", "MiB", "GiB", "TiB", "PiB", "EiB", "ZiB", "YiB"]

  /** `units[unitIndex]`, "undefined" past the end of the array. */
  function UnitName(units: seq<string>, k: nat): string
  {
    if k < |units| then units[k] else "undefined"
  }

  /** A value divided down: `magnitude` in unit number `unit`. */
  datatype Scaled = Scaled(magnitude: real, unit: nat)

  lemma FloorShrinks(b: real)
    requires b >= 1024.0
    ensures (b / 1024.0).Floor < b.Floor
  {
    assert b / 1024.0 <= b - 1.0;
  }

  /** The loop `while (bytes >= 1024) { bytes /= 1024; unitIndex++; }`. */
  function Scale(b: real): (s: Scaled)
    decreases if b < 0.0 then 0 else b.Floor
    ensures s.magnitude < 1024.0
    ensures s.magnitude * Pow1024(s.unit) == b
    ensures b < 1024.0 ==> s == Scaled(b, 0)
    ensures b >= 1024.0 ==> s.magnitude >= 1.0
  {
    if b >= 1024.0 then
      FloorShrinks(b);
      var s := Scale(b / 1024.0);
      Scaled(s.magnitude, s.unit + 1)
    else Scaled(b, 0)
  }

  lemma {:induction false} PowMonotone(j: nat, k: nat)
    requires j <= k
    ensures Pow1024(j) <= Pow1024(k)
  {
    if j < k {
      PowMonotone(j, k - 1);
    }
  }

  /** For a value of at least 1 the unit is the power of 1024 the value lies
      between: `1024^k <= b < 1024^(k+1)`. */
  lemma {:induction false} ScaleBrackets(b: real)
    requires b >= 1.0
    decreases b.Floor
    ensures Pow1024(Scale(b).unit) <= b < Pow1024(Scale(b).unit + 1)
  {
    if b >= 1024.0 {
      FloorShrinks(b);
      ScaleBrackets(b / 1024.0);
    }
  }

  /** Conversely, a value between `1024^k` and `1024^(k+1)` is shown in unit
      `k`. */
  lemma {:induction false} ScaleUnitOf(b: real, k: nat)
    requires Pow1024(k) <= b < Pow1024(k + 1)
    decreases k
    ensures Scale(b).unit == k
  {
    if k > 0 {
      ScaleUnitOf(b / 1024.0, k - 1);
    }
  }

  /** A larger value never gets a smaller unit. */
  lemma {:induction false} ScaleMonotone(a: real, b: real)
    requires a <= b
    decreases if b < 0.0 then 0 else b.Floor
    ensures Scale(a).unit <= Scale(b).unit
  {
    if a >= 1024.0 {
      FloorShrinks(b);
      ScaleMonotone(a / 1024.0, b / 1024.0);
    }
  }

  /** From `1024^9` bytes on, the unit index runs past the nine suffixes. */
  lemma ScaleBeyondUnits(b: real)
    requires b >= Pow1024(9)
    ensures Scale(b).unit >= 9 && UnitName(Units, Scale(b).unit) == "undefined"
  {
    ScaleBrackets(b);
    if Scale(b).unit < 9 {
      PowMonotone(Scale(b).unit + 1, 9);
    }
  }

  /** `${bytes.toFixed(2)}${units[unitIndex]}`, with the loop written out. */
  method FormatBytes(bytes: real) returns (text: seq<Piece>)
    ensures text == [Fixed(Finite(Scale(bytes).magnitude), 2), Lit(UnitName(Units, Scale(bytes).unit))]
    ensures bytes < 1024.0 ==> text == [Fixed(Finite(bytes), 2), Lit("B")]
  {
    var value := bytes;
    var unitIndex := 0;
    while value >= 1024.0
      invariant Scale(value).magnitude == Scale(bytes).magnitude
      invariant Scale(value).unit + unitIndex == Scale(bytes).unit
      decreases if value < 0.0 then 0 else value.Floor
    {
      FloorShrinks(value);
      value := value / 1024.0;
      unitIndex := unitIndex + 1;
    }
    text := [Fixed(Finite(value), 2), Lit(UnitName(Units, unitIndex))];
  }
}
