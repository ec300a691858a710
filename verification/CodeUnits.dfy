/** Code units, the uint32 wrap-around and the compression test shared by every string module. */
module CodeUnits {

  // A UTF-16 code unit. A narrow ("utf8", compressed) string stores the same units in single bytes.
  type CodeUnit = u: int | 0 <= u < 0x1_0000

  const TWO32: int := 0x1_0000_0000

  type Uint32 = w: int | 0 <= w < 0x1_0000_0000

  /** The test for the narrow encoding, written with its unsigned wrap-around: a unit of 0 wraps to the top. */
  predicate IsAsciiCharacter(u: CodeUnit) {
    (u - 1) % TWO32 < 0x7F
  }

  lemma {:induction false} AsciiRange(u: CodeUnit)
    ensures IsAsciiCharacter(u) <==> 1 <= u <= 0x7F
  {
    assert u > 0 ==> (u - 1) % TWO32 == u - 1;
    assert u == 0 ==> (u - 1) % TWO32 == TWO32 - 1;
  }

  /** A content can be stored narrow: every unit lies in 1..0x7F. */
  ghost predicate Compressible(s: seq<CodeUnit>) {
    forall i :: 0 <= i < |s| ==> 1 <= s[i] <= 0x7F
  }

  method CanBeCompressed(s: seq<CodeUnit>) returns (r: bool)
    ensures r <==> Compressible(s)
  {
    r := true;
    for i := 0 to |s|
      invariant forall j :: 0 <= j < i ==> 1 <= s[j] <= 0x7F
    {
      AsciiRange(s[i]);
      if !IsAsciiCharacter(s[i]) {
        return false;
      }
    }
  }

  lemma {:induction false} CompressibleAppend(a: seq<CodeUnit>, b: seq<CodeUnit>)
    ensures Compressible(a + b) <==> Compressible(a) && Compressible(b)
  {
    if Compressible(a + b) {
      forall i | 0 <= i < |a| ensures 1 <= a[i] <= 0x7F { assert (a + b)[i] == a[i]; }
      forall i | 0 <= i < |b| ensures 1 <= b[i] <= 0x7F { assert (a + b)[|a| + i] == b[i]; }
    }
  }

  lemma CompressibleSlice(a: seq<CodeUnit>, i: nat, j: nat)
    requires i <= j <= |a| && Compressible(a)
    ensures Compressible(a[i..j])
  {
  }

  lemma {:induction false} SubSlice(a: seq<CodeUnit>, i: nat, j: nat, k: nat, l: nat)
    requires i <= j <= |a| && k <= l <= j - i
    ensures a[i..j][k..l] == a[i + k..i + l]
  {
    var u, v := a[i..j][k..l], a[i + k..i + l];
    assert |u| == |v|;
    assert forall m :: 0 <= m < |u| ==> u[m] == a[i..j][k + m] == a[i + k + m] == v[m];
  }
}
