/** The `mmss` time-code renderer of the pipeline's utilities. */
module Utils {
  import opened Prelude
  import opened Strings

  /** `f"{n:02d}"`: the decimal digits of `n`, zero-padded on the left to at least two. */
  function Pad2(n: nat): (r: string)
    ensures IsDigits(r) && ParseNat(r) == n
    ensures |r| >= 2 && (|r| == 2 <==> n < 100)
    ensures |r| > 2 ==> r[0] != '0'
  {
    ParseNatToString(n);
    var d := NatToString(n);
    if n < 10 then
      assert ("0" + d)[..1] == "0";
      "0" + d
    else d
  }

  /**
   * The two fields of `mmss`: `m = int(x // 60)` and `s = int(x % 60)` where
   * `x = max(0, seconds)`. Python's float `%` by a positive divisor is
   * `x - 60 * floor(x / 60)`, never negative.
   */
  function MinutesSeconds(seconds: real): (ms: (nat, nat))
    ensures ms.1 < 60
    ensures ms.0 * 60 + ms.1 == MaxReal(0.0, seconds).Floor
    ensures seconds < 0.0 ==> ms == (0, 0)
  {
    var x := MaxReal(0.0, seconds);
    var m := (x / 60.0).Floor;
    var rem := x - 60.0 * m as real;
    (m, rem.Floor)
  }

  /**
   * `mmss(seconds)`: minutes, a colon, and seconds, each zero-padded to two
   * digits. The minutes field is as wide as it needs to be, so the text is
   * exactly five characters long below 100 minutes.
   */
  function Mmss(seconds: real): (r: string)
    ensures |r| >= 5 && r[|r| - 3] == ':'
    ensures IsDigits(r[..|r| - 3]) && IsDigits(r[|r| - 2..])
    ensures ParseNat(r[|r| - 2..]) < 60
    ensures ParseNat(r[..|r| - 3]) * 60 + ParseNat(r[|r| - 2..]) == MaxReal(0.0, seconds).Floor
    ensures |r| == 5 <==> seconds < 6000.0
    ensures seconds < 0.0 ==> r == "00:00"
    ensures |r| > 5 ==> r[0] != '0'
  {
    var (m, s) := MinutesSeconds(seconds);
    var mm := Pad2(m);
    var ss := Pad2(s);
    var r := mm + ":" + ss;
    assert r[..|r| - 3] == mm && r[|r| - 2..] == ss && r[0] == mm[0];
    r
  }
}
