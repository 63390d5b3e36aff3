/**
 * Names in the backup directory: Python's string order, the
 * "backup_*.csv" pattern, the sorted listing of matching names, and what
 * "keep only the last n" means for a set of names.
 */
module Backups {
  import opened Basics

  /** Python's `<` on str: lexicographic by code point, a proper prefix first. */
  predicate LexLess(a: string, b: string)
    decreases |a|
  {
    if a == [] then b != []
    else if b == [] then false
    else if a[0] != b[0] then a[0] < b[0]
    else LexLess(a[1..], b[1..])
  }

  lemma {:induction false} LexLessIrreflexive(a: string)
    ensures !LexLess(a, a)
    decreases |a|
  {
    if a != [] {
      LexLessIrreflexive(a[1..]);
    }
  }

  lemma {:induction false} LexLessTransitive(a: string, b: string, c: string)
    requires LexLess(a, b) && LexLess(b, c)
    ensures LexLess(a, c)
    decreases |a|
  {
    if a != [] && a[0] == b[0] && b[0] == c[0] {
      LexLessTransitive(a[1..], b[1..], c[1..]);
    }
  }

  lemma {:induction false} LexLessTotal(a: string, b: string)
    requires a != b
    ensures LexLess(a, b) || LexLess(b, a)
    decreases |a|
  {
    if a != [] && b != [] && a[0] == b[0] {
      assert a == [a[0]] + a[1..] && b == [b[0]] + b[1..];
      LexLessTotal(a[1..], b[1..]);
    }
  }

  lemma LexLessAsymmetric(a: string, b: string)
    requires LexLess(a, b)
    ensures !LexLess(b, a)
  {
    if LexLess(b, a) {
      LexLessTransitive(a, b, a);
      LexLessIrreflexive(a);
    }
  }

  /** Strictly ascending in Python's string order. */
  predicate Ascending(s: seq<string>) {
    forall i, j :: 0 <= i < j < |s| ==> LexLess(s[i], s[j])
  }

  /** Matches the glob pattern "backup_*.csv". */
  predicate IsBackupName(name: string) {
    |name| >= 11 && name[..7] == "backup_" && name[|name| - 4..] == ".csv"
  }

  /** The backup_*.csv names among a directory's file names. */
  function BackupNames(files: set<string>): set<string> {
    set n | n in files && IsBackupName(n)
  }

  /** The name of the backup written at a given strftime('%Y%m%d_%H%M%S') stamp. */
  function BackupFileName(stamp: string): (n: string)
    ensures IsBackupName(n)
  {
    var n := "backup_" + stamp + ".csv";
    assert n[..7] == "backup_" && n[|n| - 4..] == ".csv";
    n
  }

  /** An ascending sequence has no repetitions. */
  lemma AscendingDistinct(s: seq<string>)
    requires Ascending(s)
    ensures Distinct(s)
  {
    forall i, j | 0 <= i < j < |s| ensures s[i] != s[j] {
      if s[i] == s[j] {
        LexLessIrreflexive(s[i]);
      }
    }
  }

  /** Places a new name into an ascending sequence of names. */
  function InsertName(x: string, s: seq<string>): (r: seq<string>)
    requires Ascending(s) && x !in s
    ensures Ascending(r)
    ensures forall n :: n in r <==> n == x || n in s
    ensures |r| == |s| + 1
  {
    if s == [] then [x]
    else if LexLess(x, s[0]) then
      var r := [x] + s;
      forall i, j | 0 <= i < j < |r| ensures LexLess(r[i], r[j]) {
        if i == 0 && j > 1 {
          LexLessTransitive(x, s[0], s[j - 1]);
        }
      }
      r
    else
      assert x != s[0] by { assert s[0] in s; }
      LexLessTotal(x, s[0]);
      var rest := InsertName(x, s[1..]);
      var r := [s[0]] + rest;
      forall i, j | 0 <= i < j < |r| ensures LexLess(r[i], r[j]) {
        if i == 0 {
          assert r[j] in rest;
          if r[j] != x {
            var k :| 0 <= k < |s[1..]| && s[1..][k] == r[j];
            assert s[k + 1] == r[j];
          }
        } else {
          assert r[i] == rest[i - 1] && r[j] == rest[j - 1];
        }
      }
      assert forall n :: n in s <==> n == s[0] || n in s[1..] by {
        assert s == [s[0]] + s[1..];
      }
      r
  }

  /** `sorted(backup_dir.glob("backup_*.csv"))`: the matching names in ascending order. */
  method ListBackups(files: set<string>) returns (listing: seq<string>)
    ensures Ascending(listing)
    ensures forall n :: n in listing <==> n in files && IsBackupName(n)
  {
    listing := [];
    var pending := BackupNames(files);
    while pending != {}
      invariant Ascending(listing)
      invariant pending <= BackupNames(files)
      invariant forall n :: n in listing <==> n in BackupNames(files) && n !in pending
      decreases |pending|
    {
      var x :| x in pending;
      listing := InsertName(x, listing);
      pending := pending - {x};
    }
  }

  /**
   * `kept` is what remains of `all` after keeping its n greatest names:
   * min(n, |all|) of them, each greater than every name not kept.
   */
  ghost predicate KeepsGreatest(all: set<string>, kept: set<string>, n: nat) {
    && kept <= all
    && |kept| == (if |all| < n then |all| else n)
    && forall k, r :: k in kept && r in all && r !in kept ==> LexLess(r, k)
  }

  /** A subset as large as its superset is the whole superset. */
  lemma SubsetOfSameSize(a: set<string>, b: set<string>)
    ensures a <= b && |a| == |b| ==> a == b
  {
    if a <= b && |a| == |b| {
      assert |b - a| == |b| - |a|;
    }
  }

  /** The n greatest names of a set are determined by the set. */
  lemma KeepsGreatestUnique(all: set<string>, kept1: set<string>, kept2: set<string>, n: nat)
    requires KeepsGreatest(all, kept1, n) && KeepsGreatest(all, kept2, n)
    ensures kept1 == kept2
  {
    SubsetOfSameSize(kept1, kept2);
    SubsetOfSameSize(kept2, kept1);
    if kept1 != kept2 {
      var x :| x in kept1 && x !in kept2;
      var y :| y in kept2 && y !in kept1;
      assert LexLess(x, y) && LexLess(y, x);
      LexLessAsymmetric(x, y);
    }
  }

  /** The last n entries of an ascending listing are the n greatest names it lists. */
  lemma AscendingSuffixKeepsGreatest(s: seq<string>, n: nat)
    requires Ascending(s) && n <= |s|
    ensures KeepsGreatest(Elements(s), Elements(s[|s| - n..]), n)
  {
    var tail := s[|s| - n..];
    AscendingDistinct(s);
    assert Distinct(tail);
    DistinctCard(s);
    DistinctCard(tail);
    forall k, r | k in Elements(tail) && r in Elements(s) && r !in Elements(tail)
      ensures LexLess(r, k)
    {
      var a :| 0 <= a < |tail| && tail[a] == k;
      var b :| 0 <= b < |s| && s[b] == r;
      assert s[|s| - n + a] == k;
    }
  }

  /** A name greater than every other name of the set survives keeping the n >= 1 greatest. */
  lemma NewestIsKept(all: set<string>, kept: set<string>, n: nat, x: string)
    requires KeepsGreatest(all, kept, n) && n >= 1
    requires x in all && forall y :: y in all && y != x ==> LexLess(y, x)
    ensures x in kept
  {
    if x !in kept {
      assert |kept| >= 1;
      var k :| k in kept;
      assert LexLess(x, k) && LexLess(k, x);
      LexLessAsymmetric(x, k);
    }
  }
}
