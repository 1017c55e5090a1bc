/** Settings backups named by time, and the search for the newest one. */
module Backups {
  import opened Options
  import opened Ordering
  import opened Sorting
  import opened Timestamps

  const BASE: string := "settings.json"
  const BACKUP_PREFIX: string := BASE + ".bak-"

  /** Colons and dots become dashes. */
  function Dashed(s: string): (r: string)
    ensures |r| == |s|
  {
    seq(|s|, i requires 0 <= i < |s| => if s[i] == ':' || s[i] == '.' then '-' else s[i])
  }

  function BackupName(millis: int): string {
    BACKUP_PREFIX + Dashed(IsoFromMillis(millis))
  }

  predicate IsBackupName(name: string) {
    BACKUP_PREFIX <= name
  }

  /** The last backup in name order, if there is one. */
  ghost predicate IsLastBackup(names: set<string>, r: Option<string>) {
    match r
    case None => forall n :: n in names ==> !IsBackupName(n)
    case Some(last) =>
      last in names && IsBackupName(last) && forall n :: n in names && IsBackupName(n) ==> AtMost(n, last)
  }

  /** The stamp with a dash for every colon and every dot. */
  ghost predicate IsDashedStamp(s: string, stamp: string) {
    && |s| == |stamp|
    && (forall i :: 0 <= i < |s| ==> s[i] != ':' && s[i] != '.')
    && (forall i :: 0 <= i < |s| ==> s[i] == stamp[i] || (s[i] == '-' && (stamp[i] == ':' || stamp[i] == '.')))
  }

  /** Which names the search goes by. */
  lemma LastBackupMeans(names: set<string>, r: Option<string>)
    requires IsLastBackup(names, r)
    ensures r.Some? <==> exists n :: n in names && "settings.json.bak-" <= n
    ensures r.Some? ==> r.value in names && "settings.json.bak-" <= r.value
    ensures forall n :: n in names && "settings.json.bak-" <= n ==> AtMost(n, r.value)
  {
    assert BACKUP_PREFIX == "settings.json.bak-";
  }

  lemma DashedStamp(stamp: string)
    ensures IsDashedStamp(Dashed(stamp), stamp)
    ensures |BACKUP_PREFIX| == 18 && BACKUP_PREFIX == "settings.json.bak-"
  {
  }

  class SettingsDir {
    var files: map<string, string>

    method BackupSettings(raw: string, nowMillis: int) returns (name: string)
      modifies this
      ensures name == BackupName(nowMillis) && files == old(files)[name := raw]
      ensures "settings.json.bak-" <= name && IsDashedStamp(name[18..], IsoFromMillis(nowMillis))
    {
      hide IsoFromMillis;
      DashedStamp(IsoFromMillis(nowMillis));
      name := BACKUP_PREFIX + Dashed(IsoFromMillis(nowMillis));
      assert name[|BACKUP_PREFIX|..] == Dashed(IsoFromMillis(nowMillis));
      files := files[name := raw];
    }

    method FindMostRecentBackup() returns (r: Option<string>)
      ensures IsLastBackup(files.Keys, r)
    {
      var entries: seq<string> := [];
      var unread := files.Keys;
      while unread != {}
        invariant unread <= files.Keys
        invariant forall n :: n in entries <==> n in files.Keys - unread && IsBackupName(n)
        decreases unread
      {
        var n :| n in unread;
        unread := unread - {n};
        if IsBackupName(n) {
          entries := entries + [n];
        }
      }
      AtMostIsAnOrder();
      SortOrders(entries, AtMost);
      var sorted := SortBy(entries, AtMost);
      SameMembers(sorted, entries);
      if sorted == [] {
        assert forall n :: n in files.Keys && IsBackupName(n) ==> n in entries;
        return None;
      }
      forall n | n in files.Keys && IsBackupName(n) ensures AtMost(n, sorted[|sorted| - 1]) {
        assert n in sorted;
        var i :| 0 <= i < |sorted| && sorted[i] == n;
      }
      assert sorted[|sorted| - 1] in sorted;
      r := Some(sorted[|sorted| - 1]);
    }
  }

  lemma AtMostIsAnOrder()
    ensures IsTotalPreorder(AtMost)
  {
    forall a, b ensures AtMost(a, b) || AtMost(b, a) {
      BelowIsTotal(a, b);
    }
    forall a, b, c | AtMost(a, b) && AtMost(b, c) ensures AtMost(a, c) {
      if a != b && b != c {
        BelowIsTransitive(a, b, c);
      }
    }
  }

  // ---- dashes keep the order ----

  lemma {:induction false} DashedRow(f: seq<nat>, widths: seq<nat>, seps: string)
    requires |f| == |widths| == |seps| && Fits(f, widths)
    ensures Dashed(Render(f, widths, seps)) == Render(f, widths, Dashed(seps))
  {
    if f != [] {
      var head, rest := Fixed(f[0], widths[0]), Render(f[1..], widths[1..], seps[1..]);
      DashedRow(f[1..], widths[1..], seps[1..]);
      DashedDigits(f[0], widths[0]);
      assert Dashed(head + ([seps[0]] + rest)) == Dashed(head) + (Dashed([seps[0]]) + Dashed(rest));
      assert Dashed(seps)[1..] == Dashed(seps[1..]) && Dashed([seps[0]]) == [Dashed(seps)[0]];
    }
  }

  lemma DashedDigits(n: nat, w: nat)
    requires n < Pow10(w)
    ensures Dashed(Fixed(n, w)) == Fixed(n, w)
  {
    FixedReadsBack(n, w);
    assert forall i :: 0 <= i < w ==> IsDigit(Fixed(n, w)[i]);
  }

  /** Backup names sort as the times at which they were made. */
  lemma BackupNamesKeepOrder(m: nat, n: nat)
    requires m < n < YEAR_10000
    ensures Below(BackupName(m), BackupName(n))
  {
    hide IsoFromMillis, Render, Fits, RowBelow;
    IsoIsRow(m);
    IsoIsRow(n);
    FieldsFit(m);
    FieldsFit(n);
    DashedRow(Fields(m), WIDTHS, SEPARATORS);
    DashedRow(Fields(n), WIDTHS, SEPARATORS);
    RowsKeepOrder(m, n);
    RenderKeepsOrder(Fields(m), Fields(n), WIDTHS, Dashed(SEPARATORS));
    BelowAfterPrefix(BACKUP_PREFIX, Dashed(IsoFromMillis(m)), Dashed(IsoFromMillis(n)));
  }

  /** The backups among the names are those that stand for the given times. */
  ghost predicate AreNamesOf(names: set<string>, times: set<nat>, name: int -> string) {
    && (forall n :: n in names && IsBackupName(n) ==> exists t :: t in times && n == name(t))
    && (forall t :: t in times ==> name(t) in names && IsBackupName(name(t)))
  }

  /** If names sort as their times the last one is that of the newest time. */
  lemma LastIsNewest(names: set<string>, times: set<nat>, name: int -> string, newest: nat, r: Option<string>)
    requires newest in times && forall t :: t in times && t != newest ==> Below(name(t), name(newest))
    requires AreNamesOf(names, times, name) && IsLastBackup(names, r)
    ensures r == Some(name(newest))
  {
    hide Below;
    assert name(newest) in names && IsBackupName(name(newest));
    var t :| t in times && r.value == name(t);
    if t != newest {
      BelowIsStrict(name(t), name(newest));
    }
  }

  /** Where every backup was made by the backup operation before the year 10000, the search returns the newest. */
  lemma NewestBackupIsFound(names: set<string>, times: set<nat>, newest: nat, r: Option<string>)
    requires newest in times && forall t :: t in times ==> t <= newest < YEAR_10000
    ensures AreNamesOf(names, times, BackupName) && IsLastBackup(names, r) ==> r == Some(BackupName(newest))
  {
    hide AreNamesOf, IsLastBackup, BackupName;
    forall t | t in times && t != newest ensures Below(BackupName(t), BackupName(newest)) {
      BackupNamesKeepOrder(t, newest);
    }
    if AreNamesOf(names, times, BackupName) && IsLastBackup(names, r) {
      LastIsNewest(names, times, BackupName, newest, r);
    }
  }
}
