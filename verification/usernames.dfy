/** `generate_unique_username`: when a requested name is taken the server
    appends `_` and four random characters drawn from
    `string.ascii_letters + string.digits`, retrying until the result is
    not a registered name.

    The random draw is not modelled as a generator: a suffix is any string
    `IsSuffix` accepts, and the retry loop is replaced by a choice among
    the suffixes whose name is free. `FreeSuffixExists` shows such a
    suffix exists whenever fewer than 62^4 names are registered, which is
    the only situation in which the source's loop terminates for sure. */
module Usernames {

  import opened Users

  /** Number of characters in the suffix alphabet. */
  const Radix: nat := 62

  /** Number of distinct four-character suffixes. */
  const Capacity: nat := 62 * 62 * 62 * 62

  /** A character of `string.ascii_letters + string.digits`. */
  predicate IsSuffixChar(c: char)
  {
    ('a' <= c <= 'z') || ('A' <= c <= 'Z') || ('0' <= c <= '9')
  }

  /** A possible value of `''.join(random.choices(..., k=4))`. */
  predicate IsSuffix(s: string)
  {
    |s| == 4 && forall i :: 0 <= i < |s| ==> IsSuffixChar(s[i])
  }

  /** `f"{base_name}_{suffix}"` */
  function Qualify(base: string, suffix: string): string
  {
    base + "_" + suffix
  }

  /** The `d`-th character of `ascii_letters + digits`. */
  function Digit(d: nat): (c: char)
    requires d < Radix
    ensures IsSuffixChar(c)
  {
    if d < 26 then ('a' as int + d) as char
    else if d < 52 then ('A' as int + (d - 26)) as char
    else ('0' as int + (d - 52)) as char
  }

  /** Position of a suffix character in `ascii_letters + digits`. */
  function Ord(c: char): (d: nat)
    requires IsSuffixChar(c)
    ensures d < Radix
    ensures Digit(d) == c
  {
    if 'a' <= c <= 'z' then c as int - 'a' as int
    else if 'A' <= c <= 'Z' then c as int - 'A' as int + 26
    else c as int - '0' as int + 52
  }

  /** The `i`-th suffix, reading `i` as four base-62 digits. */
  function EncodeSuffix(i: nat): (s: string)
    requires i < Capacity
    ensures IsSuffix(s)
  {
    var q1 := i / Radix;
    var q2 := q1 / Radix;
    [Digit(q2 / Radix), Digit(q2 % Radix), Digit(q1 % Radix), Digit(i % Radix)]
  }

  /** The index of a suffix among all `Capacity` of them. */
  function DecodeSuffix(s: string): (i: nat)
    requires IsSuffix(s)
    ensures i < Capacity
  {
    ((Ord(s[0]) * Radix + Ord(s[1])) * Radix + Ord(s[2])) * Radix + Ord(s[3])
  }

  lemma DigitOrd(d: nat)
    requires d < Radix
    ensures Ord(Digit(d)) == d
  {
  }

  /** Every index names its own suffix: decoding undoes encoding. */
  lemma DecodeEncode(i: nat)
    requires i < Capacity
    ensures DecodeSuffix(EncodeSuffix(i)) == i
  {
    var q1 := i / Radix;
    var q2 := q1 / Radix;
    DigitOrd(q2 / Radix);
    DigitOrd(q2 % Radix);
    DigitOrd(q1 % Radix);
    DigitOrd(i % Radix);
  }

  /** Every suffix is reached: encoding undoes decoding. */
  lemma EncodeDecode(s: string)
    requires IsSuffix(s)
    ensures EncodeSuffix(DecodeSuffix(s)) == s
  {
    var a, b, c, d := Ord(s[0]), Ord(s[1]), Ord(s[2]), Ord(s[3]);
    var q2 := a * Radix + b;
    var q1 := q2 * Radix + c;
    var i := q1 * Radix + d;
    assert i / Radix == q1 && i % Radix == d;
    assert q1 / Radix == q2 && q1 % Radix == c;
    assert q2 / Radix == a && q2 % Radix == b;
  }

  /** Different indices give different names for the same base. */
  lemma QualifiedDistinct(base: string, i: nat, j: nat)
    requires i < Capacity && j < Capacity && i != j
    ensures Qualify(base, EncodeSuffix(i)) != Qualify(base, EncodeSuffix(j))
  {
    DecodeEncode(i);
    DecodeEncode(j);
    assert Qualify(base, EncodeSuffix(i))[|base| + 1..] == EncodeSuffix(i);
    assert Qualify(base, EncodeSuffix(j))[|base| + 1..] == EncodeSuffix(j);
  }

  /** Pigeonhole: if `m` pairwise different strings are all taken, at
      least `m` strings are taken. */
  lemma {:induction false} Pigeonhole(f: nat -> string, taken: set<string>, m: nat)
    requires forall i, j :: 0 <= i < j < m ==> f(i) != f(j)
    requires forall i :: 0 <= i < m ==> f(i) in taken
    ensures |taken| >= m
  {
    if m > 0 {
      var rest := taken - {f(m - 1)};
      Pigeonhole(f, rest, m - 1);
      assert taken == rest + {f(m - 1)};
    }
  }

  /** The name tried for the `i`-th suffix. Only indices below `Capacity`
      are ever used; the `else` value only makes the function total so
      that `FreeSuffixExists` can pass it to `Pigeonhole`. */
  function Candidate(base: string, i: nat): string
  {
    if i < Capacity then Qualify(base, EncodeSuffix(i)) else base
  }

  /** While fewer than 62^4 names are taken, some suffix yields a free
      name, so the retry loop can stop. */
  lemma FreeSuffixExists(base: string, taken: set<string>)
    requires |taken| < Capacity
    ensures exists i :: 0 <= i < Capacity && Qualify(base, EncodeSuffix(i)) !in taken
  {
    var f := (i: nat) => Candidate(base, i);
    forall i, j | 0 <= i < j < Capacity
      ensures f(i) != f(j)
    {
      QualifiedDistinct(base, i, j);
    }
    if forall i :: 0 <= i < Capacity ==> Qualify(base, EncodeSuffix(i)) in taken {
      Pigeonhole(f, taken, Capacity);
    }
  }

  /** The names currently registered, as a set. */
  function NameSet(users: Registry): (s: set<string>)
    ensures forall n :: n in s <==> n in Names(users)
    ensures |s| <= |users|
  {
    if users == [] then {}
    else
      var rest := NameSet(users[1..]);
      assert Names(users) == [users[0].name] + Names(users[1..]);
      rest + {users[0].name}
  }

  /** `generate_unique_username(base_name)`: some name `base_XXXX` with an
      alphanumeric four-character suffix that is not registered. */
  method GenerateUniqueUsername(base: string, users: Registry) returns (suffix: string, name: string)
    requires |users| < Capacity
    ensures IsSuffix(suffix)
    ensures name == Qualify(base, suffix)
    ensures name !in Names(users)
  {
    var taken := NameSet(users);
    FreeSuffixExists(base, taken);
    var i :| 0 <= i < Capacity && Qualify(base, EncodeSuffix(i)) !in taken;
    suffix := EncodeSuffix(i);
    name := Qualify(base, suffix);
  }
}
