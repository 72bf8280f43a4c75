/** Numbered names that avoid a finite set: decimal suffixes and the search for the first free one. */
module FreshNames {

  // ---------- str(n) ----------

  function DigitChar(d: nat): (c: char)
    requires d < 10
    ensures '0' <= c <= '9' && c as int - '0' as int == d
  {
    ('0' as int + d) as char
  }

  function Decimal(n: nat): (s: string)
    ensures s != [] && forall c <- s :: '0' <= c <= '9'
    ensures s[0] == '0' ==> n == 0 && |s| == 1
  {
    if n < 10 then [DigitChar(n)] else Decimal(n / 10) + [DigitChar(n % 10)]
  }

  function ValueOf(digits: string): int {
    if digits == [] then 0
    else ValueOf(digits[..|digits| - 1]) * 10 + (digits[|digits| - 1] as int - '0' as int)
  }

  lemma {:induction false} DecimalValue(n: nat)
    ensures ValueOf(Decimal(n)) == n
  {
    if n >= 10 {
      DecimalValue(n / 10);
      assert Decimal(n)[..|Decimal(n)| - 1] == Decimal(n / 10);
    } else {
      assert Decimal(n)[..0] == [];
    }
  }

  /** `base` first, then `base` with a numbered suffix. */
  function Numbered(base: string, before: string, n: nat, after: string): string {
    if n <= 1 then base else base + before + Decimal(n) + after
  }

  lemma NumberedInjective(base: string, before: string, after: string, i: nat, j: nat)
    requires 1 <= i && 1 <= j && before != []
    requires Numbered(base, before, i, after) == Numbered(base, before, j, after)
    ensures i == j
  {
    var a, b := Numbered(base, before, i, after), Numbered(base, before, j, after);
    if i > 1 && j > 1 {
      var start := |base| + |before|;
      assert Decimal(i) == a[start..|a| - |after|];
      assert Decimal(j) == b[start..|b| - |after|];
      DecimalValue(i);
      DecimalValue(j);
    }
  }

  // ---------- the first free name ----------

  /** Distinct numbers, from `start` on, give distinct names. */
  ghost predicate InjectiveFrom<Name(!new)>(name: nat -> Name, start: nat) {
    forall i: nat, j: nat :: start <= i && start <= j && name(i) == name(j) ==> i == j
  }

  /** The pigeonhole: among `|taken| + 1` distinct names one is free, and the search stops at the first. */
  function FirstFree<Name(==,!new)>(taken: set<Name>, name: nat -> Name, start: nat): (n: nat)
    requires InjectiveFrom(name, start)
    ensures start <= n <= start + |taken|
    ensures name(n) !in taken
    ensures forall k: nat :: start <= k < n ==> name(k) in taken
    decreases |taken|
  {
    if name(start) in taken then FirstFree(taken - {name(start)}, name, start + 1) else start
  }

  lemma FirstFreeIs<Name(!new)>(taken: set<Name>, name: nat -> Name, start: nat, n: nat)
    requires InjectiveFrom(name, start)
    requires start <= n && name(n) !in taken
    requires forall k: nat :: start <= k < n ==> name(k) in taken
    ensures FirstFree(taken, name, start) == n
  {
    var m := FirstFree(taken, name, start);
    assert name(m) !in taken;
  }
}
