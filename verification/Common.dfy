// Fixed-width integers and bounded string copies shared by every module.
module Common {

  datatype Option<+T> = None | Some(value: T) {
    function GetOr(default: T): T {
      if Some? then value else default
    }
  }

  const TWO_TO_THE_32: int := 0x1_0000_0000

  // The C type uint32_t.
  type Uint32 = x: int | 0 <= x < 0x1_0000_0000

  // Conversion to uint32_t: reduction modulo 2^32, also of negative values.
  function ToUint32(x: int): Uint32 {
    x % 0x1_0000_0000
  }

  // Narrowing to a 32-bit int in two's complement.
  function ToInt32(x: int): int {
    var u := x % 0x1_0000_0000;
    if u < 0x8000_0000 then u else u - 0x1_0000_0000
  }

  // What strncpy into a zeroed buffer of n + 1 bytes leaves behind.
  function Truncate(s: string, n: nat): string {
    if |s| <= n then s else s[..n]
  }

  // What a buffer for n characters holds of a text: all of it when it fits, and as much of
  // its beginning as fits when it does not.
  ghost predicate Holds(text: string, n: nat, held: string) {
    held <= text && |held| == (if |text| <= n then |text| else n)
  }

  function Min(a: int, b: int): int {
    if a < b then a else b
  }

  function Max(a: int, b: int): int {
    if a < b then b else a
  }

  // n distinct members of a set need a set of at least n.
  lemma {:induction false} PigeonHole(xs: seq<int>, ids: set<int>)
    requires forall i, j :: 0 <= i < j < |xs| ==> xs[i] != xs[j]
    requires forall i :: 0 <= i < |xs| ==> xs[i] in ids
    ensures |xs| <= |ids|
  {
    if |xs| > 0 {
      var rest := ids - {xs[0]};
      PigeonHole(xs[1..], rest);
      assert |rest| + 1 == |ids|;
    }
  }
}
