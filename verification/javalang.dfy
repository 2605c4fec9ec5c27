/**
  The few pieces of Java semantics the image service leans on: nullable
  references, `int` division (which truncates toward zero, unlike Dafny's
  Euclidean `/`), and the `String` operations `toLowerCase`, `lastIndexOf`
  and `startsWith`.
 */
module JavaLang {

  /** A Java reference that may be null. */
  datatype Nullable<+T> = Null | Present(value: T)

  function Max(a: int, b: int): (m: int)
    ensures m >= a && m >= b
    ensures m == a || m == b
  {
    if a >= b then a else b
  }

  /** Java's `a / b` on `int` for a positive divisor: the quotient is rounded
      toward zero, so the remainder takes the sign of the dividend and is
      smaller than the divisor. */
  function Quot(a: int, b: int): (q: int)
    requires b > 0
    ensures a >= 0 ==> 0 <= a - q * b < b
    ensures a <= 0 ==> -b < a - q * b <= 0
  {
    if a >= 0 then
      DivisionWindow(a, b);
      a / b
    else
      DivisionWindow(-a, b);
      assert -(-a / b) * b == -((-a / b) * b);
      -(-a / b)
  }

  lemma DivisionWindow(n: nat, b: int)
    requires b > 0
    ensures 0 <= n - (n / b) * b < b
  {
  }

  /** On a non-negative dividend Java's division agrees with Dafny's; on a
      negative one it is one more than the floor unless the division is exact. */
  lemma QuotVersusFloor(a: int, b: int)
    requires b > 0
    ensures a >= 0 ==> Quot(a, b) == a / b
    ensures a < 0 && a % b == 0 ==> Quot(a, b) == a / b
    ensures a < 0 && a % b != 0 ==> Quot(a, b) == a / b + 1
  {
    var q := Quot(a, b);
    var f := a / b;
    assert a == f * b + a % b;
    if a < 0 {
      if a % b == 0 {
        QuotUnique(a, b, q, f);
      } else {
        assert a - (f + 1) * b == a % b - b;
        QuotUnique(a, b, q, f + 1);
      }
    }
  }

  /** Two quotients whose remainders lie in the same half-open window of
      width b are equal. */
  lemma QuotUnique(a: int, b: int, q1: int, q2: int)
    requires b > 0
    requires -b < a - q1 * b <= 0 && -b < a - q2 * b <= 0
    ensures q1 == q2
  {
    if q1 < q2 {
      assert q2 * b - q1 * b == (q2 - q1) * b;
      MulAtLeast(q2 - q1, b);
    } else if q2 < q1 {
      assert q1 * b - q2 * b == (q1 - q2) * b;
      MulAtLeast(q1 - q2, b);
    }
  }

  lemma MulAtLeast(k: int, d: int)
    requires k >= 1 && d > 0
    ensures k * d >= d
  {
  }

  /** Division and remainder by d pick apart q * d + r when 0 <= r < d. */
  lemma Field(q: int, r: int, d: int)
    requires d > 0 && 0 <= r < d
    ensures (q * d + r) / d == q
    ensures (q * d + r) % d == r
  {
    var n := q * d + r;
    assert n == (n / d) * d + n % d;
    if n / d < q {
      assert q * d - (n / d) * d == (q - n / d) * d;
      MulAtLeast(q - n / d, d);
    } else if n / d > q {
      assert (n / d) * d - q * d == (n / d - q) * d;
      MulAtLeast(n / d - q, d);
    }
  }

  /** `Character.toLowerCase` restricted to ASCII letters. */
  function LowerChar(c: char): char {
    if 'A' <= c <= 'Z' then (c as int + 32) as char else c
  }

  /** `String.toLowerCase`, mapping ASCII capitals to their small letters and
      leaving every other character in place. */
  function ToLower(s: string): (r: string)
    ensures |r| == |s|
    ensures forall i :: 0 <= i < |s| ==> r[i] == LowerChar(s[i])
  {
    if s == [] then [] else [LowerChar(s[0])] + ToLower(s[1..])
  }

  /** Lower-casing is idempotent, so matching a lower-cased value against
      lower-case literals ignores the case of the original string. */
  lemma ToLowerIdempotent(s: string)
    ensures ToLower(ToLower(s)) == ToLower(s)
  {
    var once := ToLower(s);
    var twice := ToLower(once);
    assert |twice| == |once|;
    forall i | 0 <= i < |once|
      ensures twice[i] == once[i]
    {
      assert once[i] == LowerChar(s[i]);
    }
  }

  /** Lower-casing changes no character but a capital letter, so a character
      that is not a letter occurs in the lower-cased string exactly where it occurred in
      the original. */
  lemma ToLowerKeeps(s: string, c: char)
    requires !('A' <= c <= 'Z') && !('a' <= c <= 'z')
    ensures forall i :: 0 <= i < |s| ==> (ToLower(s)[i] == c <==> s[i] == c)
  {
  }

  /** `String.lastIndexOf(char)`: the index of the last occurrence, or -1 when
      the character does not occur. */
  function LastIndexOf(s: string, c: char): (i: int)
    ensures -1 <= i < |s|
    ensures i >= 0 ==> s[i] == c
    ensures forall j :: i < j < |s| ==> s[j] != c
  {
    if s == [] then -1
    else if s[|s| - 1] == c then |s| - 1
    else LastIndexOf(s[..|s| - 1], c)
  }

  /** `String.startsWith`. */
  predicate StartsWith(s: string, prefix: string) {
    |prefix| <= |s| && s[..|prefix|] == prefix
  }
}
