/** `UserAuth.hashPassword`: a rolling 31-multiplier hash over the password's
    UTF-16 code units, kept in the signed 32-bit range by JavaScript's
    bitwise operators, and rendered with `Number.prototype.toString(36)`. */
module Hash {
  import opened Text

  const TwoTo31: int := 0x8000_0000
  const TwoTo32: int := 0x1_0000_0000

  /** A value of JavaScript's signed 32-bit integer range. */
  predicate IsInt32(x: int)
  {
    -TwoTo31 <= x < TwoTo31
  }

  /** ECMAScript's ToInt32 on an integral number: the unique signed 32-bit
      value congruent to `x` modulo 2^32. */
  function ToInt32(x: int): (r: int)
    ensures IsInt32(r)
    ensures (x - r) % TwoTo32 == 0
  {
    var m := x % TwoTo32;
    if m >= TwoTo31 then m - TwoTo32 else m
  }

  /** Two integers congruent modulo 2^32 have the same ToInt32. */
  lemma ToInt32Congruent(x: int, y: int)
    requires (x - y) % TwoTo32 == 0
    ensures ToInt32(x) == ToInt32(y)
  {
  }

  /** One iteration of the loop body at user.js:36-38, exactly as written:
      `hash = ((hash << 5) - hash) + char; hash = hash & hash`. The shift
      truncates `hash * 32` to 32 bits; the subtraction and the addition are
      exact; `hash & hash` truncates the sum. */
  function Step(hash: int, unit: CodeUnit): int
  {
    ToInt32(ToInt32(hash * 32) - hash + unit)
  }

  /** The step is `31 * hash + unit` wrapped to signed 32 bits: truncating
      the shifted value early does not change the final truncation. */
  lemma StepWraps(hash: int, unit: CodeUnit)
    ensures Step(hash, unit) == ToInt32(31 * hash + unit)
  {
    var shifted := ToInt32(hash * 32);
    assert (hash * 32 - shifted) % TwoTo32 == 0;
    assert (shifted - hash + unit) - (31 * hash + unit) == shifted - hash * 32;
    ToInt32Congruent(shifted - hash + unit, 31 * hash + unit);
  }

  /** The accumulator after folding every code unit of `s`, starting from 0. */
  function Fold(s: JsString): (h: int)
    ensures IsInt32(h)
  {
    if s == [] then 0 else Step(Fold(s[..|s| - 1]), s[|s| - 1])
  }

  /** The code unit '-' that `toString` puts before a negative number. */
  const Minus: CodeUnit := 45

  /** The base-36 digit for `d`: '0'..'9' then 'a'..'z'. */
  function DigitUnit(d: int): (c: CodeUnit)
    requires 0 <= d < 36
  {
    if d < 10 then 48 + d else 87 + d
  }

  predicate IsDigitUnit(c: CodeUnit)
  {
    48 <= c <= 57 || 97 <= c <= 122
  }

  /** The value of a base-36 digit, the inverse of DigitUnit. */
  function DigitValue(c: CodeUnit): (d: nat)
    requires IsDigitUnit(c)
    ensures d < 36 && DigitUnit(d) == c
  {
    if c <= 57 then c - 48 else c - 87
  }

  /** The base-36 digits of a non-negative number, most significant first,
      without leading zeros (so 0 is the single digit "0"). */
  function Digits(n: nat): (r: JsString)
    ensures |r| >= 1
    ensures forall i :: 0 <= i < |r| ==> IsDigitUnit(r[i])
    ensures r[0] == DigitUnit(0) <==> n == 0
    decreases n
  {
    if n < 36 then [DigitUnit(n)] else Digits(n / 36) + [DigitUnit(n % 36)]
  }

  /** `n.toString(36)` for an integral number `n`. */
  function Render(n: int): (r: JsString)
    ensures |r| >= 1
    ensures r[0] == Minus <==> n < 0
  {
    if n < 0 then [Minus] + Digits(-n) else Digits(n)
  }

  /** The number a string of base-36 digits denotes. */
  function DigitsValue(s: JsString): nat
    requires forall i :: 0 <= i < |s| ==> IsDigitUnit(s[i])
  {
    if s == [] then 0 else DigitsValue(s[..|s| - 1]) * 36 + DigitValue(s[|s| - 1])
  }

  /** Reads back what Render writes: an optional '-' and base-36 digits
      (`parseInt(s, 36)` on such strings). */
  function Parse(s: JsString): int
    requires forall i :: 0 <= i < |s| ==> IsDigitUnit(s[i]) || (i == 0 && s[i] == Minus)
  {
    if |s| > 0 && s[0] == Minus then -(DigitsValue(s[1..]) as int) else DigitsValue(s)
  }

  lemma {:induction false} DigitsRoundTrip(n: nat)
    ensures DigitsValue(Digits(n)) == n
    decreases n
  {
    if n >= 36 {
      var d := Digits(n);
      DigitsRoundTrip(n / 36);
      assert d[..|d| - 1] == Digits(n / 36);
    }
  }

  /** Rendering loses nothing: Parse recovers the number. */
  lemma RenderRoundTrip(n: int)
    ensures Parse(Render(n)) == n
  {
    var r := Render(n);
    if n < 0 {
      assert r[1..] == Digits(-n);
      DigitsRoundTrip(-n);
    } else {
      DigitsRoundTrip(n);
    }
  }

  /** Two numbers render alike exactly when they are equal. */
  lemma RenderInjective(a: int, b: int)
    ensures Render(a) == Render(b) <==> a == b
  {
    if Render(a) == Render(b) {
      RenderRoundTrip(a);
      RenderRoundTrip(b);
    }
  }

  function Pow36(k: nat): nat
  {
    if k == 0 then 1 else 36 * Pow36(k - 1)
  }

  /** A number below 36^(k+1) has at most k+1 base-36 digits. */
  lemma {:induction false} DigitsLength(n: nat, k: nat)
    requires n < Pow36(k + 1)
    ensures |Digits(n)| <= k + 1
    decreases n
  {
    if n >= 36 {
      assert k >= 1;
      DigitsLength(n / 36, k - 1);
    }
  }

  /** The stored digest: `hashPassword(password)`. */
  function Digest(password: JsString): JsString
  {
    Render(Fold(password))
  }

  /** The digest of any password is a '-' and at most six base-36 digits:
      never longer than 7 code units and never empty. */
  lemma DigestShape(password: JsString)
    ensures 1 <= |Digest(password)| <= 7
  {
    var h := Fold(password);
    assert Pow36(6) == 2176782336;
    if h < 0 {
      DigitsLength(-h, 5);
    } else {
      DigitsLength(h, 5);
    }
  }

  /** The empty password hashes to "0": the loop never runs. */
  lemma DigestEmpty()
    ensures Digest([]) == Js("0")
  {
  }

  /** Two passwords have equal digests exactly when their 32-bit folds agree;
      the base-36 rendering adds no collisions of its own. */
  lemma DigestMatch(p: JsString, q: JsString)
    ensures Digest(p) == Digest(q) <==> Fold(p) == Fold(q)
  {
    RenderInjective(Fold(p), Fold(q));
  }

  /** The digest is not collision-free: "AaAa" and "BBBB" (both long enough to
      be accepted by register) share a digest. */
  lemma Collision()
    ensures Js("AaAa") != Js("BBBB")
    ensures Digest(Js("AaAa")) == Digest(Js("BBBB"))
  {
    var p, q := Js("AaAa"), Js("BBBB");
    assert p[0] != q[0];
    FoldOfFour(p);
    FoldOfFour(q);
  }

  /** The fold of a four-unit password of ASCII code units, which never
      wraps: the polynomial 31^3*p0 + 31^2*p1 + 31*p2 + p3. */
  lemma FoldOfFour(p: JsString)
    requires |p| == 4 && forall i :: 0 <= i < 4 ==> p[i] < 128
    ensures Fold(p) == 29791 * (p[0] as int) + 961 * (p[1] as int) + 31 * (p[2] as int) + (p[3] as int)
  {
    assert p[..0] + [p[0]] == p[..1];
    assert p[..1] + [p[1]] == p[..2];
    assert p[..2] + [p[2]] == p[..3];
    assert p[..3] + [p[3]] == p;
    FoldSmallSnoc(p[..0], p[0]);
    FoldSmallSnoc(p[..1], p[1]);
    FoldSmallSnoc(p[..2], p[2]);
    FoldSmallSnoc(p[..3], p[3]);
  }

  /** While `31 * hash + unit` stays below 2^31 nothing wraps: appending a
      code unit multiplies by 31 and adds it. */
  lemma FoldSmallSnoc(s: JsString, unit: CodeUnit)
    requires 0 <= Fold(s) && 31 * Fold(s) + unit < TwoTo31
    ensures Fold(s + [unit]) == 31 * Fold(s) + unit
  {
    assert (s + [unit])[..|s|] == s;
    StepWraps(Fold(s), unit);
  }

  /** `UserAuth.hashPassword`, with the loop of user.js:35-39. */
  method HashPassword(password: JsString) returns (digest: JsString)
    ensures digest == Digest(password)
  {
    var hash := 0;
    for i := 0 to |password|
      invariant hash == Fold(password[..i])
    {
      assert password[..i + 1][..i] == password[..i];
      hash := ToInt32(ToInt32(hash * 32) - hash + password[i]);
    }
    assert password[..|password|] == password;
    digest := Render(hash);
  }
}
