/**
 * The image record table and the read-only queries the gallery runs over it:
 * the rows of one group (or of all groups) newest first, the newest row of a
 * group, and the number of rows per group value.
 *
 * The table is a map from primary key to record. The database orders rows by
 * upload time and leaves the order of equal times to itself; this model
 * settles such ties by the larger id first.
 */
module Records {
  import opened Wrappers
  import opened Catalog

  /** One row of the image table. `caption` and `turma` model nullable
      columns; `uploadedAt` is the upload time as an integer. */
  datatype Image = Image(
    id: nat,
    filename: string,
    originalName: string,
    caption: Option<string>,
    turma: Option<string>,
    uploadedAt: int)

  type Table = map<nat, Image>

  /** Every row is stored under its own primary key. */
  ghost predicate WellKeyed(m: Table) {
    forall i :: i in m ==> m[i].id == i
  }

  /** The `filename` column is unique. */
  ghost predicate UniqueFilenames(m: Table) {
    forall i, j :: i in m && j in m && m[i].filename == m[j].filename ==> i == j
  }

  // ---------------------------------------------------------------------
  // Ordering: newest first
  // ---------------------------------------------------------------------

  /** Row `i` is listed before row `j`: it is newer, or as new with a larger id. */
  predicate Before(m: Table, i: nat, j: nat)
    requires i in m && j in m
  {
    m[i].uploadedAt > m[j].uploadedAt || (m[i].uploadedAt == m[j].uploadedAt && i > j)
  }

  /** `top` is the row of `ids` that is listed first. */
  predicate IsFirst(m: Table, ids: set<nat>, top: nat)
    requires ids <= m.Keys
  {
    top in ids && forall j :: j in ids && j != top ==> Before(m, top, j)
  }

  /** Every non-empty set of rows has a first row. */
  lemma {:induction false} FirstExists(m: Table, ids: set<nat>)
    requires ids <= m.Keys && ids != {}
    ensures exists top :: IsFirst(m, ids, top)
    decreases ids
  {
    var x :| x in ids;
    if ids == {x} {
      assert IsFirst(m, ids, x);
    } else {
      FirstExists(m, ids - {x});
      var t :| IsFirst(m, ids - {x}, t);
      if Before(m, x, t) {
        forall j | j in ids && j != x ensures Before(m, x, j) {
          if j != t {
            assert Before(m, t, j);
          }
        }
        assert IsFirst(m, ids, x);
      } else {
        assert IsFirst(m, ids, t);
      }
    }
  }

  /** The keys `ids` in listing order: each exactly once, newest first. */
  function Ordered(m: Table, ids: set<nat>): (r: seq<nat>)
    requires ids <= m.Keys
    ensures |r| == |ids|
    ensures forall k :: 0 <= k < |r| ==> r[k] in ids
    ensures forall i :: i in ids ==> i in r
    ensures forall a, b :: 0 <= a < b < |r| ==> Before(m, r[a], r[b])
    decreases ids
  {
    if ids == {} then []
    else
      FirstExists(m, ids);
      var top :| IsFirst(m, ids, top);
      [top] + Ordered(m, ids - {top})
  }

  /** The rows stored under `ids`, in that order. */
  function Records(m: Table, ids: seq<nat>): seq<Image>
    requires forall k :: 0 <= k < |ids| ==> ids[k] in m
  {
    seq(|ids|, k requires 0 <= k < |ids| => m[ids[k]])
  }

  // ---------------------------------------------------------------------
  // What a listing promises
  // ---------------------------------------------------------------------

  /** Non-increasing upload time, no row twice. */
  ghost predicate NewestFirst(r: seq<Image>) {
    forall a, b :: 0 <= a < b < |r| ==> r[a].uploadedAt >= r[b].uploadedAt && r[a].id != r[b].id
  }

  /** `r` lists exactly the stored rows whose keys are in `ids`, newest first. */
  ghost predicate ListsExactly(m: Table, ids: set<nat>, r: seq<Image>) {
    && |r| == |ids|
    && (forall x :: x in r <==> x.id in ids && x.id in m && m[x.id] == x)
    && NewestFirst(r)
  }

  /** The rows under `ids`, newest first (`order_by(uploaded_at desc).all()`):
      exactly the stored rows of `ids`, none twice, with non-increasing upload time. */
  function OrderedRecords(m: Table, ids: set<nat>): (r: seq<Image>)
    requires ids <= m.Keys
    ensures |r| == |ids|
    ensures forall a, b :: 0 <= a < b < |r| ==> r[a].uploadedAt >= r[b].uploadedAt
    ensures forall x :: x in r ==> x in m.Values
    ensures WellKeyed(m) ==> ListsExactly(m, ids, r)
  {
    var o := Ordered(m, ids);
    var r := Records(m, o);
    assert forall k :: 0 <= k < |o| ==> r[k] == m[o[k]];
    assert forall a, b :: 0 <= a < b < |r| ==> r[a].uploadedAt >= r[b].uploadedAt by {
      forall a, b | 0 <= a < b < |r| ensures r[a].uploadedAt >= r[b].uploadedAt {
        assert Before(m, o[a], o[b]);
      }
    }
    assert forall x :: x in r ==> x in m.Values by {
      forall x | x in r ensures x in m.Values {
        var k :| 0 <= k < |r| && r[k] == x;
        assert o[k] in m;
      }
    }
    assert WellKeyed(m) ==> ListsExactly(m, ids, r) by {
      if WellKeyed(m) {
        forall x | x in r ensures x.id in ids && x.id in m && m[x.id] == x {
          var k :| 0 <= k < |r| && r[k] == x;
        }
        forall x: Image | x.id in ids && x.id in m && m[x.id] == x ensures x in r {
          var k :| 0 <= k < |o| && o[k] == x.id;
          assert r[k] == x;
        }
        forall a, b | 0 <= a < b < |r| ensures r[a].id != r[b].id {
          assert Before(m, o[a], o[b]);
        }
      }
    }
    r
  }

  // ---------------------------------------------------------------------
  // Queries
  // ---------------------------------------------------------------------

  /** The keys of the rows whose group column equals `t`. */
  function IdsWith(m: Table, t: Option<string>): set<nat> {
    set i | i in m && m[i].turma == t
  }

  /** The number of rows whose group column equals `t` (one row of the
      grouped count query): zero exactly when no row has that value, and
      never more than the table holds. */
  function GroupSize(m: Table, t: Option<string>): (n: nat)
    ensures n == 0 <==> forall i :: i in m ==> m[i].turma != t
    ensures n <= |m|
  {
    var ids := IdsWith(m, t);
    assert ids <= m.Keys;
    assert (forall i :: i in m ==> m[i].turma != t) ==> ids == {};
    assert ids == {} ==> forall i :: i in m ==> m[i].turma != t by {
      forall i | i in m && ids == {} ensures m[i].turma != t {
        assert m[i].turma == t ==> i in ids;
      }
    }
    SubsetSize(ids, m.Keys);
    |ids|
  }

  lemma {:induction false} SubsetSize(a: set<nat>, b: set<nat>)
    requires a <= b
    ensures |a| <= |b|
    decreases b
  {
    if a != {} {
      var x :| x in a;
      SubsetSize(a - {x}, b - {x});
    }
  }

  /** The distinct values of the group column. */
  function GroupValues(m: Table): set<Option<string>> {
    set i | i in m :: m[i].turma
  }

  /** The rows whose group column equals `t`, newest first. */
  function Listing(m: Table, t: Option<string>): seq<Image> {
    OrderedRecords(m, IdsWith(m, t))
  }

  /** The newest row of group `k` (the first row of the group's listing):
      None exactly when no row has that group; otherwise a stored row of the
      group at least as new as every row of the group. */
  function Latest(m: Table, k: string): (r: Option<Image>)
    ensures r.None? <==> forall i :: i in m ==> m[i].turma != Some(k)
    ensures r.Some? ==>
      && r.value in m.Values && r.value.turma == Some(k)
      && forall i :: i in m && m[i].turma == Some(k) ==> m[i].uploadedAt <= r.value.uploadedAt
    ensures r.Some? && WellKeyed(m) ==> r.value.id in m && m[r.value.id] == r.value
  {
    var ids := IdsWith(m, Some(k));
    var o := Ordered(m, ids);
    var l := Listing(m, Some(k));
    assert l == Records(m, o);
    assert forall j :: 0 <= j < |o| ==> l[j] == m[o[j]];
    if l == [] then
      assert forall i :: i in m ==> m[i].turma != Some(k) by {
        forall i | i in m ensures m[i].turma != Some(k) {
          assert m[i].turma == Some(k) ==> i in ids;
        }
      }
      None
    else
      assert forall i :: i in m && m[i].turma == Some(k) ==> m[i].uploadedAt <= l[0].uploadedAt by {
        forall i | i in m && m[i].turma == Some(k) ensures m[i].uploadedAt <= l[0].uploadedAt {
          assert i in ids;
          var p :| 0 <= p < |o| && o[p] == i;
          if p > 0 {
            assert Before(m, o[0], o[p]);
          }
        }
      }
      assert m[o[0]] in m.Values;
      Some(l[0])
  }

  /** The public gallery page of group `turma`: None (a redirect home)
      exactly for a key outside the catalog; otherwise the group's rows,
      newest first, and nothing else. */
  function Galeria(m: Table, turma: string): (r: Option<seq<Image>>)
    ensures r.None? <==> turma !in Turmas
    ensures r.Some? ==> forall x :: x in r.value ==> x in m.Values && x.turma == Some(turma)
    ensures r.Some? ==> |r.value| == GroupSize(m, Some(turma))
    ensures r.Some? ==> forall a, b :: 0 <= a < b < |r.value| ==> r.value[a].uploadedAt >= r.value[b].uploadedAt
    ensures r.Some? && WellKeyed(m) ==> ListsExactly(m, IdsWith(m, Some(turma)), r.value)
  {
    if turma !in Turmas then None
    else
      var l := Listing(m, Some(turma));
      var o := Ordered(m, IdsWith(m, Some(turma)));
      assert l == Records(m, o);
      assert forall x :: x in l ==> x.turma == Some(turma) by {
        forall x | x in l ensures x.turma == Some(turma) {
          var k :| 0 <= k < |l| && l[k] == x;
          assert l[k] == m[o[k]];
        }
      }
      Some(l)
  }

  /** The administrative listing for an already stripped filter: the group's
      rows when the filter is a catalog key, every row otherwise; newest first. */
  function AdminListing(m: Table, turma: string): (r: seq<Image>)
    ensures forall x :: x in r ==> x in m.Values
    ensures turma in Turmas ==> |r| == GroupSize(m, Some(turma))
    ensures turma !in Turmas ==> |r| == |m|
    ensures forall a, b :: 0 <= a < b < |r| ==> r[a].uploadedAt >= r[b].uploadedAt
    ensures WellKeyed(m) && turma in Turmas ==> ListsExactly(m, IdsWith(m, Some(turma)), r)
    ensures WellKeyed(m) && turma !in Turmas ==> ListsExactly(m, m.Keys, r)
  {
    var ids := if turma in Turmas then IdsWith(m, Some(turma)) else m.Keys;
    assert |m.Keys| == |m|;
    OrderedRecords(m, ids)
  }

  // ---------------------------------------------------------------------
  // How inserting and removing a row moves the counts
  // ---------------------------------------------------------------------

  /** Inserting a new row adds one to its own group's count and nothing to any other. */
  lemma GroupSizeAfterInsert(m: Table, id: nat, x: Image, t: Option<string>)
    requires id !in m
    ensures GroupSize(m[id := x], t) == GroupSize(m, t) + (if x.turma == t then 1 else 0)
  {
    if x.turma == t {
      assert IdsWith(m[id := x], t) == IdsWith(m, t) + {id};
    } else {
      assert IdsWith(m[id := x], t) == IdsWith(m, t);
    }
  }

  /** Removing a stored row takes one from its own group's count and nothing from any other. */
  lemma GroupSizeAfterRemove(m: Table, id: nat, t: Option<string>)
    requires id in m
    ensures GroupSize(m - {id}, t) == GroupSize(m, t) - (if m[id].turma == t then 1 else 0)
  {
    if m[id].turma == t {
      assert IdsWith(m, t) == IdsWith(m - {id}, t) + {id};
    } else {
      assert IdsWith(m - {id}, t) == IdsWith(m, t);
    }
  }

  /** A row uploaded later than every row of its group heads that group's gallery. */
  lemma NewestUploadListedFirst(m: Table, id: nat, x: Image, k: string)
    requires WellKeyed(m) && id !in m && x.id == id
    requires k in Turmas && x.turma == Some(k)
    requires forall i :: i in m && m[i].turma == Some(k) ==> m[i].uploadedAt < x.uploadedAt
    ensures Galeria(m[id := x], k).Some?
    ensures |Galeria(m[id := x], k).value| == GroupSize(m, Some(k)) + 1
    ensures Galeria(m[id := x], k).value[0] == x
  {
    var m' := m[id := x];
    GroupSizeAfterInsert(m, id, x, Some(k));
    var ids := IdsWith(m', Some(k));
    var o := Ordered(m', ids);
    assert id in ids;
    var p :| 0 <= p < |o| && o[p] == id;
    assert p == 0;
  }
}
