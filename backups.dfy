/**
 * The backup directory of `core/manager.py`, as a list of entries with a
 * modification time and a content: pruning to the newest ten, and the
 * newest-first search for a usable backup.
 */
module Backups {
  import opened Base
  import opened Models

  const MAX_BACKUPS_TO_KEEP := 10

  /** What reading a JSON file gives: only white space, text that does not parse, a JSON value other than a list, or a list of records. */
  datatype Content = Blank | Unparseable | NotAList | Records(items: seq<Dict>)

  /** A `reservations_backup_*.json` file. */
  datatype Backup = Backup(mtime: int, content: Content)

  /**
   * The test `load_latest_valid_backup` applies: the file is a JSON list and,
   * when not empty, its first element builds a Reservation.
   */
  predicate Usable(b: Backup)
  {
    b.content.Records? && FirstBuilds(b.content.items)
  }

  /** An empty list passes; otherwise `Reservation.from_dict` must accept its first element. */
  predicate FirstBuilds(items: seq<Dict>)
  {
    items == [] || FromDict(items[0]).Ok?
  }

  /** `a` may precede `b` in a sort by mtime, ascending or, with `newestFirst`, descending. */
  predicate InOrder(a: Backup, b: Backup, newestFirst: bool)
  {
    if newestFirst then a.mtime >= b.mtime else a.mtime <= b.mtime
  }

  predicate SortedBy(s: seq<Backup>, newestFirst: bool)
  {
    forall i, j :: 0 <= i < j < |s| ==> InOrder(s[i], s[j], newestFirst)
  }

  /** Places `b` before the first entry it may precede; equal mtimes keep `b` first, which makes the sort stable. */
  function Insert(b: Backup, s: seq<Backup>, newestFirst: bool): (r: seq<Backup>)
    requires SortedBy(s, newestFirst)
    ensures SortedBy(r, newestFirst)
    ensures multiset(r) == multiset(s) + multiset{b}
  {
    if s == [] || InOrder(b, s[0], newestFirst) then
      [b] + s
    else
      var rest := Insert(b, s[1..], newestFirst);
      assert s == [s[0]] + s[1..];
      assert forall x :: x in rest ==> InOrder(s[0], x, newestFirst) by {
        forall x | x in rest ensures InOrder(s[0], x, newestFirst) {
          assert x in multiset(rest);
          if x != b {
            assert x in multiset(s[1..]);
            var k :| 0 <= k < |s[1..]| && s[1..][k] == x;
            assert s[k + 1] == x;
          }
        }
      }
      [s[0]] + rest
  }

  /** `sorted(..., key=os.path.getmtime)`, or with `reverse=True`: a stable sort by modification time. */
  function SortByMtime(bs: seq<Backup>, newestFirst: bool): (s: seq<Backup>)
    ensures SortedBy(s, newestFirst)
    ensures multiset(s) == multiset(bs) && |s| == |bs|
  {
    if bs == [] then []
    else
      assert bs == [bs[0]] + bs[1..];
      Insert(bs[0], SortByMtime(bs[1..], newestFirst), newestFirst)
  }

  /**
   * `cleanup_old_backups`: with more than ten backups, all but the ten newest
   * by mtime are deleted; otherwise nothing is.
   */
  function Prune(bs: seq<Backup>): (kept: seq<Backup>)
  {
    var s := SortByMtime(bs, false);
    if |s| > MAX_BACKUPS_TO_KEEP then s[|s| - MAX_BACKUPS_TO_KEEP..] else bs
  }

  /** In an ascending sort, every entry before the cut is at most as new as every entry from the cut on. */
  lemma SortedPrefixOlder(s: seq<Backup>, cut: nat)
    requires SortedBy(s, false) && cut <= |s|
    ensures forall d, k :: d in multiset(s[..cut]) && k in s[cut..] ==> d.mtime <= k.mtime
  {
    forall d, k | d in multiset(s[..cut]) && k in s[cut..]
      ensures d.mtime <= k.mtime
    {
      var i :| 0 <= i < cut && s[..cut][i] == d;
      var j' :| 0 <= j' < |s[cut..]| && s[cut..][j'] == k;
      assert s[i] == d && s[cut + j'] == k;
    }
  }

  /** Pruning leaves at most ten backups, deletes nothing from ten or fewer, and never deletes one newer than a kept one. */
  lemma PruneKeepsNewest(bs: seq<Backup>)
    ensures |bs| <= MAX_BACKUPS_TO_KEEP ==> Prune(bs) == bs
    ensures |bs| > MAX_BACKUPS_TO_KEEP ==> |Prune(bs)| == MAX_BACKUPS_TO_KEEP
    ensures multiset(Prune(bs)) <= multiset(bs)
    ensures forall d, k :: d in multiset(bs) - multiset(Prune(bs)) && k in Prune(bs) ==> d.mtime <= k.mtime
  {
    var s := SortByMtime(bs, false);
    var n := |s|;
    if n > MAX_BACKUPS_TO_KEEP {
      var cut := n - MAX_BACKUPS_TO_KEEP;
      assert s == s[..cut] + s[cut..];
      assert multiset(s) == multiset(s[..cut]) + multiset(s[cut..]);
      assert multiset(bs) - multiset(Prune(bs)) == multiset(s[..cut]);
      SortedPrefixOlder(s, cut);
    }
  }

  /** The first usable entry of `s`. */
  function FirstUsable(s: seq<Backup>): (r: Option<Backup>)
    ensures r.None? <==> forall b :: b in s ==> !Usable(b)
    ensures r.Some? ==> Usable(r.value) && exists i :: 0 <= i < |s| && s[i] == r.value && forall j :: 0 <= j < i ==> !Usable(s[j])
  {
    if s == [] then None
    else if Usable(s[0]) then Some(s[0])
    else
      var rest := FirstUsable(s[1..]);
      assert forall b :: b in s <==> b == s[0] || b in s[1..];
      assert rest.Some? ==> exists i :: 0 <= i < |s| && s[i] == rest.value && forall j :: 0 <= j < i ==> !Usable(s[j]) by {
        if rest.Some? {
          var i :| 0 <= i < |s[1..]| && s[1..][i] == rest.value && forall j :: 0 <= j < i ==> !Usable(s[1..][j]);
          assert s[i + 1] == rest.value;
          assert forall j :: 1 <= j < i + 1 ==> s[j] == s[1..][j - 1];
        }
      }
      rest
  }

  /** What `load_latest_valid_backup` returns: the first usable backup, newest first. */
  function LatestUsable(bs: seq<Backup>): Option<Backup>
  {
    FirstUsable(SortByMtime(bs, true))
  }

  /** The backup chosen is usable, is one of the backups, and no usable backup is newer; none is chosen only when none is usable. */
  lemma LatestUsableIsNewest(bs: seq<Backup>)
    ensures LatestUsable(bs).None? <==> forall b :: b in bs ==> !Usable(b)
    ensures LatestUsable(bs).Some? ==>
      var found := LatestUsable(bs).value;
      Usable(found) && found in bs && forall b :: b in bs && Usable(b) ==> b.mtime <= found.mtime
  {
    var s := SortByMtime(bs, true);
    assert forall b :: b in bs <==> b in s by {
      assert forall b :: b in bs <==> b in multiset(bs);
    }
    if LatestUsable(bs).Some? {
      var found := LatestUsable(bs).value;
      var i :| 0 <= i < |s| && s[i] == found && forall j :: 0 <= j < i ==> !Usable(s[j]);
      forall b | b in bs && Usable(b)
        ensures b.mtime <= found.mtime
      {
        NoUsableNewer(s, i, b);
      }
    }
  }

  /** In a list sorted newest first, a usable entry is no newer than the first usable one. */
  lemma NoUsableNewer(s: seq<Backup>, i: nat, b: Backup)
    requires SortedBy(s, true) && i < |s| && forall j :: 0 <= j < i ==> !Usable(s[j])
    requires b in s && Usable(b)
    ensures b.mtime <= s[i].mtime
  {
    var j :| 0 <= j < |s| && s[j] == b;
    if i < j {
      assert InOrder(s[i], s[j], true);
    }
  }

  /** The first usable entry is the one at `k` when none before it is usable. */
  lemma {:induction false} FirstUsableAt(s: seq<Backup>, k: nat)
    requires k < |s| && Usable(s[k]) && forall j :: 0 <= j < k ==> !Usable(s[j])
    ensures FirstUsable(s) == Some(s[k])
  {
    if k > 0 {
      FirstUsableAt(s[1..], k - 1);
    }
  }

  /** The loop of `load_latest_valid_backup` over the backups sorted newest first. */
  method LoadLatestValidBackup(bs: seq<Backup>) returns (found: Option<Backup>)
    ensures found == LatestUsable(bs)
    ensures found.Some? ==> Usable(found.value) && found.value in bs
  {
    var candidates := SortByMtime(bs, true);
    for k := 0 to |candidates|
      invariant forall j :: 0 <= j < k ==> !Usable(candidates[j])
    {
      var b := candidates[k];
      if b.content.Blank? {
        continue;                     // an empty file
      }
      if !b.content.Records? {
        continue;                     // JSONDecodeError, or not a list
      }
      if !FirstBuilds(b.content.items) {
        continue;                     // the first record does not build
      }
      FirstUsableAt(candidates, k);
      assert b in multiset(bs);
      return Some(b);
    }
    return None;
  }
}
