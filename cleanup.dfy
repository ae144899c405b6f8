/**
 * The community-table side of the repair: the duplicate-community gate of
 * `is_duplicate_community?` (fix-duplicate-communities.rb, lines 50-62) and
 * the choices of `final_community_cleanup` (lines 173-213): which row's
 * content survives, which id is kept and which is deleted, and what the
 * survivor's SET list holds.
 */
module Cleanup {
  import opened Wrappers
  import opened Records
  import opened Sql

  const LastRefreshedAt: Column := "last_refreshed_at"
  const Description: Column := "description"
  const CommunityTable: string := "community"

  // ---------------------------------------------------------------------------
  // The gate

  /** `select * from community where id = '<a>' or id = '<b>'`. */
  function CommunityQuery(ct: Table, a: int, b: int): (q: Table)
    ensures forall r :: r in q <==> r in ct && (HasId(r, a) || HasId(r, b))
  {
    if ct == [] then []
    else
      var r := ct[|ct| - 1];
      CommunityQuery(ct[..|ct| - 1], a, b) + (if HasId(r, a) || HasId(r, b) then [r] else [])
  }

  /** `id` is the primary key of `community`: no two rows share an id. */
  ghost predicate UniqueIds(ct: Table)
  {
    forall i, j :: 0 <= i < j < |ct| ==> Get(ct[i], Id) != Get(ct[j], Id)
  }

  lemma {:induction false} QueryUniqueIds(ct: Table, a: int, b: int)
    requires UniqueIds(ct)
    ensures UniqueIds(CommunityQuery(ct, a, b))
  {
    if ct != [] {
      var p := ct[..|ct| - 1];
      var r := ct[|ct| - 1];
      assert UniqueIds(p);
      QueryUniqueIds(p, a, b);
      var qp := CommunityQuery(p, a, b);
      forall x | x in qp
        ensures Get(x, Id) != Get(r, Id)
      {
        var i :| 0 <= i < |p| && p[i] == x;
        assert ct[i] == x;
      }
    }
  }

  /**
   * Under the primary key, the query returns more than one row exactly when
   * the two ids differ and both communities exist (line 58).
   */
  lemma GateIff(ct: Table, a: int, b: int)
    requires UniqueIds(ct)
    ensures |CommunityQuery(ct, a, b)| > 1 <==>
      a != b && (exists r :: r in ct && HasId(r, a)) && (exists r :: r in ct && HasId(r, b))
  {
    var q := CommunityQuery(ct, a, b);
    if |q| > 1 {
      QueryUniqueIds(ct, a, b);
      assert q[0] in q && q[1] in q;
      assert Get(q[0], Id) != Get(q[1], Id);
    }
    if a != b && (exists r :: r in ct && HasId(r, a)) && (exists r :: r in ct && HasId(r, b)) {
      var ra :| ra in ct && HasId(ra, a);
      var rb :| rb in ct && HasId(rb, b);
      assert ra in q && rb in q;
      var i :| 0 <= i < |q| && q[i] == ra;
      var j :| 0 <= j < |q| && q[j] == rb;
      assert i != j;
    }
  }

  // ---------------------------------------------------------------------------
  // Ruby's `<=>` on the values of `last_refreshed_at`

  /** The class of a value; `<=>` compares only values of one class. */
  function Kind(v: Value): nat
  {
    match v
    case Null => 0
    case Int(_) => 1
    case Text(_) => 2
  }

  /** `String#<=>`: lexicographic, a proper prefix first. */
  function CompareText(a: string, b: string): int
  {
    if a == [] && b == [] then 0
    else if a == [] then -1
    else if b == [] then 1
    else if a[0] < b[0] then -1
    else if a[0] > b[0] then 1
    else CompareText(a[1..], b[1..])
  }

  function CompareInt(a: int, b: int): int
  {
    if a < b then -1 else if a > b then 1 else 0
  }

  /** `a <=> b`: nil for values of different classes; `nil <=> nil` is 0. */
  function Compare(a: Value, b: Value): (c: Option<int>)
    ensures c.Some? <==> Kind(a) == Kind(b)
  {
    match (a, b)
    case (Null, Null) => Some(0)
    case (Int(x), Int(y)) => Some(CompareInt(x, y))
    case (Text(x), Text(y)) => Some(CompareText(x, y))
    case _ => None
  }

  /** `a <=> b` is defined and not positive. */
  predicate NotAfter(a: Value, b: Value)
  {
    Compare(a, b).Some? && Compare(a, b).value <= 0
  }

  /** `a <=> b` is defined and negative. */
  predicate Before(a: Value, b: Value)
  {
    Compare(a, b).Some? && Compare(a, b).value < 0
  }

  lemma {:induction false} CompareTextProps(a: string, b: string)
    ensures CompareText(a, b) in {-1, 0, 1}
    ensures CompareText(b, a) == -CompareText(a, b)
    ensures CompareText(a, b) == 0 <==> a == b
  {
    if a != [] && b != [] && a[0] == b[0] {
      CompareTextProps(a[1..], b[1..]);
      if a[1..] == b[1..] {
        assert a == [a[0]] + a[1..] && b == [b[0]] + b[1..];
      }
    }
  }

  lemma {:induction false} CompareTextTrans(a: string, b: string, c: string)
    requires CompareText(a, b) <= 0 && CompareText(b, c) <= 0
    ensures CompareText(a, c) <= 0
    ensures CompareText(a, b) < 0 || CompareText(b, c) < 0 ==> CompareText(a, c) < 0
  {
    if a != [] && b != [] && c != [] && a[0] == b[0] == c[0] {
      CompareTextTrans(a[1..], b[1..], c[1..]);
    }
  }

  /** On values of one class `<=>` is a total order: reflexive, antisymmetric and transitive. */
  lemma CompareOrder(a: Value, b: Value, c: Value)
    ensures NotAfter(a, a)
    ensures Compare(a, b).Some? ==> Compare(b, a) == Some(-Compare(a, b).value)
    ensures Compare(a, b).Some? ==> (Compare(a, b).value <= 0 || Before(b, a))
    ensures NotAfter(a, b) && NotAfter(b, c) ==> NotAfter(a, c)
    ensures NotAfter(a, b) && NotAfter(b, c) && (Before(a, b) || Before(b, c)) ==> Before(a, c)
  {
    if a.Text? {
      CompareTextProps(a.s, a.s);
    }
    if a.Text? && b.Text? {
      CompareTextProps(a.s, b.s);
    }
    if a.Text? && b.Text? && c.Text? && NotAfter(a, b) && NotAfter(b, c) {
      CompareTextTrans(a.s, b.s, c.s);
    }
  }

  // ---------------------------------------------------------------------------
  // The survivor

  /** `row.values_at('last_refreshed_at')[0]`. */
  function Refreshed(r: Row): Value
  {
    Get(r, LastRefreshedAt)
  }

  /**
   * `result.max { |row1, row2| ... }` (line 177): the first row is the
   * current maximum and each later row replaces it only when `<=>` says it
   * is greater, so the first of several maximal rows wins; a nil comparison
   * raises, and no rows give nil.
   */
  function MostRecent(rows: Table): Result<Option<Row>, Error>
  {
    if rows == [] then Ok(None)
    else
      var r := rows[|rows| - 1];
      match MostRecent(rows[..|rows| - 1])
      case Err(e) => Err(e)
      case Ok(None) => Ok(Some(r))
      case Ok(Some(m)) =>
        match Compare(Refreshed(r), Refreshed(m))
        case None => Err(ComparisonFailed)
        case Some(c) => if c > 0 then Ok(Some(r)) else Ok(Some(m))
  }

  /**
   * The survivor is one of the rows, none is more recent, and every row
   * before it is strictly less recent: it is the first maximal row.
   */
  lemma {:induction false} MostRecentIsFirstMax(rows: Table)
    requires MostRecent(rows).Ok? && MostRecent(rows).value.Some?
    ensures var m := MostRecent(rows).value.value;
      (forall x :: x in rows ==> NotAfter(Refreshed(x), Refreshed(m))) &&
      exists i :: 0 <= i < |rows| && rows[i] == m && forall j :: 0 <= j < i ==> Before(Refreshed(rows[j]), Refreshed(m))
  {
    var p := rows[..|rows| - 1];
    var r := rows[|rows| - 1];
    var m' := MostRecent(rows).value.value;
    assert rows == p + [r];
    CompareOrder(Refreshed(r), Refreshed(r), Refreshed(r));
    if MostRecent(p).value.None? {
      assert p == [] by {
        if p != [] {
          MostRecentEmpty(p);
        }
      }
      assert rows[0] == m';
    } else {
      MostRecentIsFirstMax(p);
      var m := MostRecent(p).value.value;
      var i :| 0 <= i < |p| && p[i] == m && forall j :: 0 <= j < i ==> Before(Refreshed(p[j]), Refreshed(m));
      var c := Compare(Refreshed(r), Refreshed(m)).value;
      CompareOrder(Refreshed(r), Refreshed(m), Refreshed(r));
      if c > 0 {
        forall x | x in rows
          ensures NotAfter(Refreshed(x), Refreshed(r))
        {
          if x in p {
            CompareOrder(Refreshed(x), Refreshed(m), Refreshed(r));
          }
        }
        forall j | 0 <= j < |p|
          ensures Before(Refreshed(rows[j]), Refreshed(r))
        {
          assert rows[j] == p[j];
          CompareOrder(Refreshed(p[j]), Refreshed(m), Refreshed(r));
        }
        assert rows[|p|] == m';
      } else {
        forall x | x in rows
          ensures NotAfter(Refreshed(x), Refreshed(m))
        {
          if x == r {
            assert NotAfter(Refreshed(r), Refreshed(m));
          }
        }
        assert rows[i] == m';
        forall j | 0 <= j < i
          ensures Before(Refreshed(rows[j]), Refreshed(m))
        {
          assert rows[j] == p[j];
        }
      }
    }
  }

  /** `max` gives nil only for no rows. */
  lemma {:induction false} MostRecentEmpty(rows: Table)
    ensures MostRecent(rows) == Ok(None) <==> rows == []
  {
    if rows != [] {
      var p := rows[..|rows| - 1];
      MostRecentEmpty(p);
    }
  }

  /** `max` raises exactly when two of the rows' values are of different classes. */
  lemma {:induction false} MostRecentFails(rows: Table)
    ensures MostRecent(rows).Err? <==>
      exists i, j :: 0 <= i < |rows| && 0 <= j < |rows| && Kind(Refreshed(rows[i])) != Kind(Refreshed(rows[j]))
  {
    if rows != [] {
      var p := rows[..|rows| - 1];
      var r := rows[|rows| - 1];
      MostRecentFails(p);
      var res := MostRecent(p);
      if res.Err? {
        var i, j :| 0 <= i < |p| && 0 <= j < |p| && Kind(Refreshed(p[i])) != Kind(Refreshed(p[j]));
        assert rows[i] == p[i] && rows[j] == p[j];
      } else if res.value.Some? {
        MostRecentIsFirstMax(p);
        var m := res.value.value;
        var k :| 0 <= k < |p| && p[k] == m;
        assert rows[k] == m;
        if Compare(Refreshed(r), Refreshed(m)).None? {
          assert Kind(Refreshed(rows[|p|])) != Kind(Refreshed(rows[k]));
        } else {
          forall i | 0 <= i < |rows|
            ensures Kind(Refreshed(rows[i])) == Kind(Refreshed(m))
          {
            if i < |p| {
              assert rows[i] == p[i] && p[i] in p;
            }
          }
        }
      } else {
        MostRecentEmpty(p);
        assert rows == [r];
      }
    }
  }

  // ---------------------------------------------------------------------------
  // The plan of the final cleanup

  /** The survivor's columns less `id` and `description` (lines 185-194): the SET list. */
  function SetList(m: Row): (s: Row)
    ensures forall k :: k in s <==> k in m && k != Id && k != Description
    ensures forall k :: k in s ==> s[k] == m[k]
  {
    m - {Id, Description}
  }

  /** What `final_community_cleanup` decides before it writes. */
  datatype Plan = Plan(survivor: Row, targetId: int, deletedId: int, values: Row)

  function MinInt(a: int, b: int): int { if a <= b then a else b }

  function MaxInt(a: int, b: int): int { if a <= b then b else a }

  /** Lines 177-193, on the community table. */
  function PlanCleanup(ct: Table, originalId: int, duplicateId: int): Result<Plan, Error>
  {
    match MostRecent(CommunityQuery(ct, originalId, duplicateId))
    case Err(e) => Err(e)
    case Ok(None) => Err(NilReceiver)
    case Ok(Some(m)) =>
      Ok(Plan(m, MinInt(originalId, duplicateId), MaxInt(originalId, duplicateId), SetList(m)))
  }

  /** The id the logged DELETE names (line 199). */
  function LoggedDeleteId(p: Plan): Value
  {
    Get(p.survivor, Id)
  }

  /** The writes of lines 205-210: update the target row, then delete the row with the larger id. */
  function CleanupStatements(p: Plan): seq<Statement>
  {
    [UpdateById(p.targetId, p.values), DeleteById(p.deletedId)]
  }

  /** The two writes, by what they do: the UPDATE of the target row, then the DELETE of the other id. */
  lemma CleanupStatementsApply(ct: Table, p: Plan)
    ensures ApplyAll(ct, CleanupStatements(p)) == WithoutId(UpdateWhereId(ct, p.targetId, p.values), p.deletedId)
  {
    var sts := CleanupStatements(p);
    assert sts[..1][..0] == [] && sts[..2][..1] == sts[..1] && sts[..2] == sts;
    assert ApplyAll(ct, sts[..1]) == UpdateWhereId(ct, p.targetId, p.values);
  }

  /**
   * The plan keeps the smaller id and deletes the larger, whatever row is the
   * survivor; the survivor is a queried row no other queried row is more
   * recent than; and the SET list is every survivor column but `id` and
   * `description`.
   */
  lemma PlanSpec(ct: Table, o: int, d: int)
    requires PlanCleanup(ct, o, d).Ok?
    ensures var p := PlanCleanup(ct, o, d).value;
      && p.targetId <= p.deletedId
      && {p.targetId, p.deletedId} == {o, d}
      && p.survivor in ct && (HasId(p.survivor, o) || HasId(p.survivor, d))
      && (forall x :: x in CommunityQuery(ct, o, d) ==> NotAfter(Refreshed(x), Refreshed(p.survivor)))
      && (forall k :: k in p.values <==> k in p.survivor && k != Id && k != Description)
  {
    MostRecentIsFirstMax(CommunityQuery(ct, o, d));
    var p := PlanCleanup(ct, o, d).value;
    var i :| 0 <= i < |CommunityQuery(ct, o, d)| && CommunityQuery(ct, o, d)[i] == p.survivor;
  }

  /** The cleanup fails before writing exactly when `max` raises or finds no row. */
  lemma PlanFails(ct: Table, o: int, d: int)
    ensures var q := CommunityQuery(ct, o, d);
      PlanCleanup(ct, o, d).Err? <==>
        q == [] || exists i, j :: 0 <= i < |q| && 0 <= j < |q| && Kind(Refreshed(q[i])) != Kind(Refreshed(q[j]))
  {
    MostRecentFails(CommunityQuery(ct, o, d));
    MostRecentEmpty(CommunityQuery(ct, o, d));
  }

  /** After the writes, every target row carries the SET values, the deleted id is gone, and no other row changed. The SET list never names `id`. */
  lemma CleanupEffect(ct: Table, p: Plan)
    requires p.targetId != p.deletedId
    requires Id !in p.values
    ensures var ct' := ApplyAll(ct, CleanupStatements(p));
      && (forall x :: x in ct' ==> !HasId(x, p.deletedId))
      && (forall x :: x in ct && HasId(x, p.targetId) ==> x + p.values in ct')
      && (forall x :: x in ct && !HasId(x, p.targetId) && !HasId(x, p.deletedId) ==> x in ct')
  {
    var u := UpdateWhereId(ct, p.targetId, p.values);
    CleanupStatementsApply(ct, p);
    forall x | x in ct && HasId(x, p.targetId)
      ensures x + p.values in u
    {
      var i :| 0 <= i < |ct| && ct[i] == x;
      assert u[i] == x + p.values;
      assert Get(x + p.values, Id) == Get(x, Id);
    }
    forall x | x in ct && !HasId(x, p.targetId)
      ensures x in u
    {
      var i :| 0 <= i < |ct| && ct[i] == x;
      assert u[i] == x;
    }
  }

  /**
   * The logged DELETE can name a row other than the one deleted: when the
   * smaller id's row is the more recent, the log names it, while the larger
   * id is deleted (lines 199 and 208).
   */
  lemma LoggedDeleteMayDiffer()
    ensures var ct := [map[Id := Int(1), LastRefreshedAt := Text("2024")], map[Id := Int(2), LastRefreshedAt := Text("2023")]];
      PlanCleanup(ct, 1, 2).Ok? &&
      LoggedDeleteId(PlanCleanup(ct, 1, 2).value) == Int(1) &&
      PlanCleanup(ct, 1, 2).value.deletedId == 2
  {
    var a := map[Id := Int(1), LastRefreshedAt := Text("2024")];
    var b := map[Id := Int(2), LastRefreshedAt := Text("2023")];
    var ct := [a, b];
    assert HasId(a, 1) && HasId(b, 2);
    assert ct[..1] == [a] && [a][..0] == [];
    assert CommunityQuery([a], 1, 2) == [a];
    assert CommunityQuery(ct, 1, 2) == [a, b];
    assert Refreshed(a) == Text("2024") && Refreshed(b) == Text("2023");
    assert MostRecent([a]) == Ok(Some(a));
    assert CompareText("2023", "2024") == -1;
  }
}
