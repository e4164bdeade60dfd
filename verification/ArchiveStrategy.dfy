/** ArchiveByTimestampStrategy::archiveByNumber of Poco/ArchiveStrategy.h, over a file system that is
    a finite map from paths to contents. */
module ArchiveStrategies {

  // ---------------------------------------------------------------- names

  /** NumberFormatter::append for a number that is not negative. */
  function Decimal(n: nat): (s: string)
    ensures s != []
  {
    if n < 10 then [Digit(n)] else Decimal(n / 10) + [Digit(n % 10)]
  }

  function Digit(d: nat): char
    requires d < 10
  {
    ('0' as int + d) as char
  }

  predicate IsDigit(c: char) {
    '0' <= c <= '9'
  }

  /** The number that a row of digits stands for. */
  function Number(s: string): nat
    requires forall c :: c in s ==> IsDigit(c)
  {
    if s == "" then 0 else
    assert IsDigit(s[|s| - 1]);
    10 * Number(s[..|s| - 1]) + (s[|s| - 1] as int - '0' as int)
  }

  /** Only digits, no leading zero, and they stand for the number. */
  lemma {:induction false} DecimalReads(n: nat)
    ensures forall c :: c in Decimal(n) ==> IsDigit(c)
    ensures Number(Decimal(n)) == n
    ensures Decimal(n)[0] == '0' <==> n == 0
    ensures n == 0 ==> Decimal(n) == "0"
  {
    if n >= 10 {
      DecimalReads(n / 10);
      var s := Decimal(n);
      assert s[..|s| - 1] == Decimal(n / 10) && s[|s| - 1] == Digit(n % 10);
      assert s[0] == Decimal(n / 10)[0];
    } else {
      assert Decimal(n)[..0] == "";
    }
  }

  function Numbered(base: string, n: nat): string {
    base + "." + Decimal(n)
  }

  lemma {:induction false} DecimalInjective(m: nat, n: nat)
    requires Decimal(m) == Decimal(n)
    ensures m == n
  {
    assert Decimal(m)[|Decimal(m)| - 1] == Digit(m % 10) && Decimal(n)[|Decimal(n)| - 1] == Digit(n % 10);
    assert m % 10 == n % 10;
    if m >= 10 && n >= 10 {
      assert Decimal(m)[..|Decimal(m)| - 1] == Decimal(m / 10) && Decimal(n)[..|Decimal(n)| - 1] == Decimal(n / 10);
      DecimalInjective(m / 10, n / 10);
    }
  }

  /** Different numbers give different names, and none of them is the base name. */
  lemma {:induction false} NumberedInjective(base: string, m: nat, n: nat)
    ensures Numbered(base, m) == Numbered(base, n) ==> m == n
    ensures Numbered(base, m) != base
  {
    if Numbered(base, m) == Numbered(base, n) {
      assert Numbered(base, m)[|base| + 1..] == Decimal(m) && Numbered(base, n)[|base| + 1..] == Decimal(n);
      DecimalInjective(m, n);
    }
    assert |Numbered(base, m)| > |base|;
  }

  /** The name is the base name, a dot and the number. */
  lemma {:induction false} NumberedReads(base: string, n: nat)
    ensures var name, m := Numbered(base, n), |base| + 1;
            && m < |name| && name[..m] == base + "."
            && (forall c :: c in name[m..] ==> IsDigit(c))
            && Number(name[m..]) == n && (name[m] == '0' <==> name[m..] == "0")
  {
    DecimalReads(n);
    assert Numbered(base, n)[|base| + 1..] == Decimal(n);
    if Decimal(n) == "0" {
      assert Number("0") == 0;
    }
  }

  // ---------------------------------------------------------------- what archiving does

  type Files = map<string, string>

  /** Number k is the first whose name is free. */
  ghost predicate FirstFree(files: Files, base: string, k: nat) {
    Numbered(base, k) !in files && forall i: nat :: i < k ==> Numbered(base, i) in files
  }

  /** The new name of a file: the base becomes number 0 and each number below k the next one. */
  ghost function NewName(base: string, k: nat, path: string): string {
    if path == base then Numbered(base, 0)
    else if exists i: nat :: i < k && path == Numbered(base, i) then
      var i: nat :| i < k && path == Numbered(base, i);
      Numbered(base, i + 1)
    else path
  }

  /** The name whose file moves to number i. */
  function Previous(base: string, i: nat): string {
    if i == 0 then base else Numbered(base, i - 1)
  }

  /** Neither the base name nor one of its numbers up to k. */
  ghost predicate Unrelated(base: string, k: nat, p: string) {
    p != base && forall i: nat :: i <= k ==> p != Numbered(base, i)
  }

  ghost predicate SameFile(before: Files, after: Files, p: string) {
    (p in after <==> p in before) && (p in before ==> after[p] == before[p])
  }

  /** The files after the base and its numbers below k were shifted by one: the base name is free,
      number 0 is the old base, number i is the old number i - 1, and all else is as it was. */
  ghost predicate Shifted(before: Files, after: Files, base: string, k: nat) {
    && base !in after
    && (forall i: nat :: i <= k ==>
          && Previous(base, i) in before && Numbered(base, i) in after
          && after[Numbered(base, i)] == before[Previous(base, i)])
    && (forall p :: Unrelated(base, k, p) ==> SameFile(before, after, p))
  }

  /** The state of the renaming loop when the file of number n is the next to be made: everything
      below is untouched, number n is free and everything above is already shifted. */
  ghost predicate ShiftedAbove(before: Files, now: Files, base: string, k: nat, n: int) {
    && -1 <= n <= k
    && (if n == -1 then base !in now else base in now && SameFile(before, now, base) && Numbered(base, n) !in now)
    && (forall i: nat :: i < n ==> Numbered(base, i) in now && SameFile(before, now, Numbered(base, i)))
    && (forall i: nat :: n < i <= k ==>
          && Previous(base, i) in before && Numbered(base, i) in now
          && now[Numbered(base, i)] == before[Previous(base, i)])
    && (forall p :: Unrelated(base, k, p) ==> SameFile(before, now, p))
  }

  lemma ShiftStep(before: Files, now: Files, base: string, k: nat, n: nat)
    requires ShiftedAbove(before, now, base, k, n)
    ensures Previous(base, n) in now && Numbered(base, n) !in now
    ensures ShiftedAbove(before, (now - {Previous(base, n)})[Numbered(base, n) := now[Previous(base, n)]], base, k, n - 1)
  {
    forall i: nat, j: nat
      ensures Numbered(base, i) == Numbered(base, j) ==> i == j
      ensures Numbered(base, i) != base
    {
      NumberedInjective(base, i, j);
    }
  }

  lemma NewNameOf(base: string, k: nat, i: nat)
    requires i < k
    ensures NewName(base, k, Numbered(base, i)) == Numbered(base, i + 1)
  {
    NumberedInjective(base, i, i);
    var path := Numbered(base, i);
    var j: nat :| j < k && path == Numbered(base, j) && NewName(base, k, path) == Numbered(base, j + 1);
    NumberedInjective(base, i, j);
  }

  /** Archiving loses nothing: every file is found again under its new name, and no two files get
      the same name. */
  lemma {:induction false} ShiftKeepsContents(before: Files, after: Files, base: string, k: nat, p: string, q: string)
    requires FirstFree(before, base, k) && Shifted(before, after, base, k)
    requires p in before && q in before
    ensures NewName(base, k, p) in after && after[NewName(base, k, p)] == before[p]
    ensures NewName(base, k, p) == NewName(base, k, q) ==> p == q
  {
    NewNameCases(before, base, k, p);
    if p == base {
      assert Previous(base, 0) == p && Numbered(base, 0) in after;
    } else if exists i: nat :: i < k && p == Numbered(base, i) {
      var i: nat :| i < k && p == Numbered(base, i);
      assert Previous(base, i + 1) == p && Numbered(base, i + 1) in after;
    } else {
      assert Unrelated(base, k, p);
    }
    if p != q {
      NewNameUnique(before, base, k, p, q);
    }
  }

  /** The three kinds of files. */
  lemma NewNameCases(before: Files, base: string, k: nat, p: string)
    requires FirstFree(before, base, k) && p in before
    ensures p == base ==> NewName(base, k, p) == Numbered(base, 0)
    ensures forall i: nat :: i < k && p == Numbered(base, i) ==> NewName(base, k, p) == Numbered(base, i + 1)
    ensures p != base && (forall i: nat :: i < k ==> p != Numbered(base, i)) ==>
              NewName(base, k, p) == p && forall i: nat :: i <= k ==> p != Numbered(base, i)
  {
    forall i: nat | i < k && p == Numbered(base, i) ensures NewName(base, k, p) == Numbered(base, i + 1) {
      NewNameOf(base, k, i);
    }
  }

  lemma NewNameUnique(before: Files, base: string, k: nat, p: string, q: string)
    requires FirstFree(before, base, k) && p in before && q in before && p != q
    ensures NewName(base, k, p) != NewName(base, k, q)
  {
    NewNameCases(before, base, k, p);
    NewNameCases(before, base, k, q);
    forall i: nat, j: nat ensures Numbered(base, i) == Numbered(base, j) ==> i == j {
      NumberedInjective(base, i, j);
    }
  }

  // ---------------------------------------------------------------- the loops

  class FileSystem {
    var files: Files

    /** moveFile as a rename: the source must be there, and nothing may be overwritten. */
    method MoveFile(oldPath: string, newPath: string)
      requires oldPath in files && newPath !in files
      modifies this
      ensures files == (old(files) - {oldPath})[newPath := old(files)[oldPath]]
    {
      files := (files - {oldPath})[newPath := files[oldPath]];
    }

    /** The search for the first free number; it ends because there are only finitely many files. */
    method FirstFreeNumber(base: string) returns (n: nat)
      ensures FirstFree(files, base, n)
    {
      n := 0;
      ghost var left := files.Keys;
      while Numbered(base, n) in files
        invariant forall i: nat :: i < n ==> Numbered(base, i) in files
        invariant left <= files.Keys
        invariant forall i: nat :: n <= i && Numbered(base, i) in files ==> Numbered(base, i) in left
        decreases |left|
      {
        forall i: nat | n < i ensures Numbered(base, i) != Numbered(base, n) {
          NumberedInjective(base, i, n);
        }
        left := left - {Numbered(base, n)};
        n := n + 1;
      }
    }

    method ArchiveByNumber(base: string)
      requires base in files
      modifies this
      ensures exists k: nat :: FirstFree(old(files), base, k) && Shifted(old(files), files, base, k)
    {
      var k := FirstFreeNumber(base);
      var n: int := k;
      while n >= 0
        invariant ShiftedAbove(old(files), files, base, k, n)
      {
        ShiftStep(old(files), files, base, k, n);
        var oldPath := base;
        if n > 0 {
          oldPath := Numbered(base, n - 1);
        }
        MoveFile(oldPath, Numbered(base, n));
        n := n - 1;
      }
      assert Shifted(old(files), files, base, k);
    }
  }
}
