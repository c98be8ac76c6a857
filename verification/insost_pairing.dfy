/**
 The INSOST pairing rule of `oracle_insert` (invs_test.py): for every
 (PRN, NOMEN) group of the 8 database's substitution table `invsubst`,
 taken in ascending PRN and then ascending NOMEN order, the 7 database's
 record numbers of `insost` in that group are zipped, in table order,
 with the 8 database's record numbers of `invsubst` in that group. The
 result is the list of rows the function inserts into UDO_T_IMPORT7, in
 insertion order; the database calls themselves are not modelled.
 */
module InsostPairing {

  import opened NpUnique

  /** A row of inv_subst.csv: substitution record `RN` of inventory card `PRN`, nomenclature `NOMEN`. */
  datatype SubstRow = SubstRow(rn: int, prn: int, nomen: int)

  /** A row of insost.csv: record `RN7` of the 7 database and the 8 database's `PRN` and `NOMEN` it maps to. */
  datatype InsostRow = InsostRow(rn7: string, prn: int, nomen: int)

  /** A (PRN, NOMEN) group. */
  datatype Group = Group(prn: int, nomen: int)

  /** One row inserted into UDO_T_IMPORT7, as its three columns (table7, rn7, rn8). */
  datatype Insertion = Insertion(table7: string, rn7: string, rn8: int)

  /** The `table7` literal of the insert statement, spaces included. */
  const InsostTable: string := " INSOST "

  predicate InSubstGroup(r: SubstRow, g: Group) {
    r.prn == g.prn && r.nomen == g.nomen
  }

  predicate InInsostGroup(r: InsostRow, g: Group) {
    r.prn == g.prn && r.nomen == g.nomen
  }

  /** Some `invsubst` row belongs to group `g`. */
  predicate Occurs(invsubst: seq<SubstRow>, g: Group) {
    exists i :: 0 <= i < |invsubst| && InSubstGroup(invsubst[i], g)
  }

  /** Lexicographic order on groups: PRN first, then NOMEN. */
  predicate GroupLess(a: Group, b: Group) {
    a.prn < b.prn || (a.prn == b.prn && a.nomen < b.nomen)
  }

  predicate GroupsAscending(gs: seq<Group>) {
    forall i, j :: 0 <= i < j < |gs| ==> GroupLess(gs[i], gs[j])
  }

  /** The column `invsubst.PRN`. */
  function Prns(invsubst: seq<SubstRow>): (r: seq<int>)
    ensures |r| == |invsubst|
    ensures forall i :: 0 <= i < |r| ==> r[i] == invsubst[i].prn
  {
    seq(|invsubst|, i requires 0 <= i < |invsubst| => invsubst[i].prn)
  }

  /** The `NOMEN` of every `invsubst` row whose `PRN` is `prn`, in table order (invs_test.py:128). */
  function NomensOf(invsubst: seq<SubstRow>, prn: int): (r: seq<int>)
    ensures forall n :: n in r <==> Occurs(invsubst, Group(prn, n))
  {
    if invsubst == [] then []
    else
      var rest := NomensOf(invsubst[1..], prn);
      assert forall n :: Occurs(invsubst, Group(prn, n)) <==>
                         InSubstGroup(invsubst[0], Group(prn, n)) || Occurs(invsubst[1..], Group(prn, n)) by {
        forall n ensures Occurs(invsubst, Group(prn, n)) ==>
                         InSubstGroup(invsubst[0], Group(prn, n)) || Occurs(invsubst[1..], Group(prn, n)) {
          if Occurs(invsubst, Group(prn, n)) {
            var i :| 0 <= i < |invsubst| && InSubstGroup(invsubst[i], Group(prn, n));
            if i > 0 {
              assert InSubstGroup(invsubst[1..][i - 1], Group(prn, n));
            }
          }
        }
      }
      (if invsubst[0].prn == prn then [invsubst[0].nomen] else []) + rest
  }

  /** The groups of one PRN, one per NOMEN, in the given order. */
  function PairWith(prn: int, nomens: seq<int>): (r: seq<Group>)
    ensures |r| == |nomens|
    ensures forall i :: 0 <= i < |r| ==> r[i] == Group(prn, nomens[i])
  {
    seq(|nomens|, i requires 0 <= i < |nomens| => Group(prn, nomens[i]))
  }

  /** The groups of one PRN that the inner loop visits: each NOMEN of that PRN once, ascending. */
  lemma PrnGroups(invsubst: seq<SubstRow>, prn: int)
    ensures var r := PairWith(prn, Unique(NomensOf(invsubst, prn)));
            && GroupsAscending(r)
            && forall g :: g in r <==> g.prn == prn && Occurs(invsubst, g)
  {
    var nomens := Unique(NomensOf(invsubst, prn));
    var r := PairWith(prn, nomens);
    forall g ensures g in r <==> g.prn == prn && Occurs(invsubst, g) {
      if g in r {
        var i :| 0 <= i < |r| && r[i] == g;
        assert nomens[i] in nomens;
      }
      if g.prn == prn && Occurs(invsubst, g) {
        var i :| 0 <= i < |nomens| && nomens[i] == g.nomen;
        assert r[i] == g;
      }
    }
  }

  /** The groups the two nested loops visit for the PRN values `prns`, in visiting order. */
  function GroupsOf(invsubst: seq<SubstRow>, prns: seq<int>): (r: seq<Group>)
    requires Increasing(prns)
    ensures GroupsAscending(r)
    ensures forall g :: g in r <==> g.prn in prns && Occurs(invsubst, g)
  {
    if prns == [] then []
    else
      var init, last := prns[..|prns| - 1], prns[|prns| - 1];
      var front := GroupsOf(invsubst, init);
      var back := PairWith(last, Unique(NomensOf(invsubst, last)));
      PrnGroups(invsubst, last);
      assert forall x :: x in init ==> x < last;
      assert prns == init + [last];
      ConcatAscending(front, back);
      front + back
  }

  /** One more PRN adds the groups of that PRN after the ones so far. */
  lemma GroupsOfSnoc(invsubst: seq<SubstRow>, prns: seq<int>, a: nat)
    requires Increasing(prns) && a < |prns|
    ensures Increasing(prns[..a]) && Increasing(prns[..a + 1])
    ensures GroupsOf(invsubst, prns[..a + 1])
            == GroupsOf(invsubst, prns[..a]) + PairWith(prns[a], Unique(NomensOf(invsubst, prns[a])))
  {
    assert prns[..a + 1][..a] == prns[..a];
  }

  lemma ConcatAscending(front: seq<Group>, back: seq<Group>)
    requires GroupsAscending(front) && GroupsAscending(back)
    requires forall a, b :: a in front && b in back ==> GroupLess(a, b)
    ensures GroupsAscending(front + back)
  {
    var r := front + back;
    forall i, j | 0 <= i < j < |r| ensures GroupLess(r[i], r[j]) {
      if j < |front| {
        assert r[i] == front[i] && r[j] == front[j];
      } else if i >= |front| {
        assert r[i] == back[i - |front|] && r[j] == back[j - |front|];
      } else {
        assert r[i] in front && r[j] in back;
      }
    }
  }

  /**
   The groups `oracle_insert` visits, in order: every (PRN, NOMEN) that
   occurs in `invsubst`, each once, ascending by PRN and then NOMEN.
   */
  function Groups(invsubst: seq<SubstRow>): (r: seq<Group>)
    ensures GroupsAscending(r)
    ensures forall g :: g in r <==> Occurs(invsubst, g)
  {
    var prns := Unique(Prns(invsubst));
    var r := GroupsOf(invsubst, prns);
    assert forall g :: Occurs(invsubst, g) ==> g.prn in prns by {
      forall g | Occurs(invsubst, g) ensures g.prn in prns {
        var i :| 0 <= i < |invsubst| && InSubstGroup(invsubst[i], g);
        assert Prns(invsubst)[i] == g.prn;
      }
    }
    r
  }

  /** The `RN7` of every `insost` row in group `g`, in table order (invs_test.py:131). */
  function Rn7s(insost: seq<InsostRow>, g: Group): (r: seq<string>)
    ensures |r| <= |insost|
    ensures forall s :: s in r ==> exists row :: row in insost && InInsostGroup(row, g) && row.rn7 == s
    ensures forall row :: row in insost && InInsostGroup(row, g) ==> row.rn7 in r
  {
    if insost == [] then []
    else
      var rest := Rn7s(insost[1..], g);
      assert forall row :: row in insost[1..] ==> row in insost;
      assert forall row :: row in insost ==> row == insost[0] || row in insost[1..];
      (if InInsostGroup(insost[0], g) then [insost[0].rn7] else []) + rest
  }

  /** The `RN` of every `invsubst` row in group `g`, in table order (invs_test.py:132). */
  function Rn8s(invsubst: seq<SubstRow>, g: Group): (r: seq<int>)
    ensures |r| <= |invsubst|
    ensures forall n :: n in r ==> exists row :: row in invsubst && InSubstGroup(row, g) && row.rn == n
    ensures forall row :: row in invsubst && InSubstGroup(row, g) ==> row.rn in r
  {
    if invsubst == [] then []
    else
      var rest := Rn8s(invsubst[1..], g);
      assert forall row :: row in invsubst[1..] ==> row in invsubst;
      assert forall row :: row in invsubst ==> row == invsubst[0] || row in invsubst[1..];
      (if InSubstGroup(invsubst[0], g) then [invsubst[0].rn] else []) + rest
  }

  /** Selection keeps table order: the selection from two consecutive slices of a table is the two selections joined. */
  lemma {:induction false} Rn7sAppend(a: seq<InsostRow>, b: seq<InsostRow>, g: Group)
    ensures Rn7s(a + b, g) == Rn7s(a, g) + Rn7s(b, g)
  {
    if a != [] {
      assert (a + b)[1..] == a[1..] + b;
      Rn7sAppend(a[1..], b, g);
    } else {
      assert a + b == b;
    }
  }

  /** Selection keeps table order: the selection from two consecutive slices of a table is the two selections joined. */
  lemma {:induction false} Rn8sAppend(a: seq<SubstRow>, b: seq<SubstRow>, g: Group)
    ensures Rn8s(a + b, g) == Rn8s(a, g) + Rn8s(b, g)
  {
    if a != [] {
      assert (a + b)[1..] == a[1..] + b;
      Rn8sAppend(a[1..], b, g);
    } else {
      assert a + b == b;
    }
  }

  function Min(a: nat, b: nat): nat {
    if a < b then a else b
  }

  /** `zip(rn7_s, rn8_s)`, each pair becoming one insertion: the i-th with the i-th, the surplus of the longer list dropped. */
  function Zip(rn7s: seq<string>, rn8s: seq<int>): (r: seq<Insertion>)
    ensures |r| == Min(|rn7s|, |rn8s|)
    ensures forall i :: 0 <= i < |r| ==> r[i] == Insertion(InsostTable, rn7s[i], rn8s[i])
  {
    if rn7s == [] || rn8s == [] then []
    else [Insertion(InsostTable, rn7s[0], rn8s[0])] + Zip(rn7s[1..], rn8s[1..])
  }

  /** The insertions of one group. */
  function GroupInsertions(insost: seq<InsostRow>, invsubst: seq<SubstRow>, g: Group): seq<Insertion> {
    Zip(Rn7s(insost, g), Rn8s(invsubst, g))
  }

  /** The insertions of the groups `gs`, group after group. */
  function Insertions(insost: seq<InsostRow>, invsubst: seq<SubstRow>, gs: seq<Group>): seq<Insertion> {
    if gs == [] then []
    else Insertions(insost, invsubst, gs[..|gs| - 1]) + GroupInsertions(insost, invsubst, gs[|gs| - 1])
  }

  /** Every row `oracle_insert` would insert, in insertion order. */
  function Plan(insost: seq<InsostRow>, invsubst: seq<SubstRow>): (r: seq<Insertion>)
    ensures forall x :: x in r ==> FromSameGroup(insost, invsubst, x)
  {
    InsertionsFromSameGroup(insost, invsubst, Groups(invsubst));
    Insertions(insost, invsubst, Groups(invsubst))
  }

  /** An insertion that pairs an `insost` row and an `invsubst` row of one and the same (PRN, NOMEN) group. */
  predicate FromSameGroup(insost: seq<InsostRow>, invsubst: seq<SubstRow>, x: Insertion) {
    && x.table7 == InsostTable
    && exists r7, r8 ::
         && r7 in insost && r8 in invsubst
         && r7.rn7 == x.rn7 && r8.rn == x.rn8
         && r7.prn == r8.prn && r7.nomen == r8.nomen
  }

  /** Within a group, the i-th `RN7` in table order is paired with the i-th `RN` in table order, for min(|RN7s|, |RNs|) pairs. */
  lemma GroupPairsInOrder(insost: seq<InsostRow>, invsubst: seq<SubstRow>, g: Group)
    ensures var r := GroupInsertions(insost, invsubst, g);
            var a, b := Rn7s(insost, g), Rn8s(invsubst, g);
            && |r| == Min(|a|, |b|)
            && forall i :: 0 <= i < |r| ==> r[i].rn7 == a[i] && r[i].rn8 == b[i]
  {
  }

  /** Every insertion pairs an `insost` row with an `invsubst` row of the same (PRN, NOMEN). */
  lemma {:induction false} InsertionsFromSameGroup(insost: seq<InsostRow>, invsubst: seq<SubstRow>, gs: seq<Group>)
    ensures forall x :: x in Insertions(insost, invsubst, gs) ==> FromSameGroup(insost, invsubst, x)
  {
    if gs != [] {
      InsertionsFromSameGroup(insost, invsubst, gs[..|gs| - 1]);
      var g := gs[|gs| - 1];
      var block := GroupInsertions(insost, invsubst, g);
      forall x | x in block ensures FromSameGroup(insost, invsubst, x) {
        var k :| 0 <= k < |block| && block[k] == x;
        var a, b := Rn7s(insost, g), Rn8s(invsubst, g);
        assert a[k] in a && b[k] in b;
        var r7 :| r7 in insost && InInsostGroup(r7, g) && r7.rn7 == a[k];
        var r8 :| r8 in invsubst && InSubstGroup(r8, g) && r8.rn == b[k];
      }
    }
  }

  /** A row outside group `g` does not change the insertions of `g`. */
  lemma GroupIgnoresOther(a: seq<InsostRow>, row: InsostRow, b: seq<InsostRow>, invsubst: seq<SubstRow>, g: Group)
    requires !InInsostGroup(row, g)
    ensures GroupInsertions(a + [row] + b, invsubst, g) == GroupInsertions(a + b, invsubst, g)
  {
    var r7 := Rn7s(a + [row] + b, g);
    assert r7 == Rn7s(a + b, g) by {
      Rn7sAppend(a + [row], b, g);
      Rn7sAppend(a, [row], g);
      Rn7sAppend(a, b, g);
      assert Rn7s([row], g) == [] by {
        assert [row][1..] == [];
      }
    }
  }

  /** Removing an `insost` row whose group does not occur in `invsubst` leaves the insertions of the groups `gs` unchanged. */
  lemma {:induction false} InsertionsIgnoreOrphan(a: seq<InsostRow>, row: InsostRow, b: seq<InsostRow>,
                                                  invsubst: seq<SubstRow>, gs: seq<Group>)
    requires !Occurs(invsubst, Group(row.prn, row.nomen))
    requires forall g :: g in gs ==> Occurs(invsubst, g)
    ensures Insertions(a + [row] + b, invsubst, gs) == Insertions(a + b, invsubst, gs)
  {
    if gs != [] {
      var init, g := gs[..|gs| - 1], gs[|gs| - 1];
      assert forall h :: h in init ==> h in gs;
      InsertionsIgnoreOrphan(a, row, b, invsubst, init);
      assert g in gs;
      GroupIgnoresOther(a, row, b, invsubst, g);
    }
  }

  /** An `insost` row whose (PRN, NOMEN) has no `invsubst` row contributes no pair: dropping it changes nothing. */
  lemma PlanIgnoresOrphan(a: seq<InsostRow>, row: InsostRow, b: seq<InsostRow>, invsubst: seq<SubstRow>)
    requires !Occurs(invsubst, Group(row.prn, row.nomen))
    ensures Plan(a + [row] + b, invsubst) == Plan(a + b, invsubst)
  {
    InsertionsIgnoreOrphan(a, row, b, invsubst, Groups(invsubst));
  }

  lemma InsertionsSnoc(insost: seq<InsostRow>, invsubst: seq<SubstRow>, gs: seq<Group>, g: Group)
    ensures Insertions(insost, invsubst, gs + [g]) == Insertions(insost, invsubst, gs) + GroupInsertions(insost, invsubst, g)
  {
    assert (gs + [g])[..|gs|] == gs;
  }

  lemma {:induction false} InsertionsAppend(insost: seq<InsostRow>, invsubst: seq<SubstRow>, gs: seq<Group>, hs: seq<Group>)
    ensures Insertions(insost, invsubst, gs + hs) == Insertions(insost, invsubst, gs) + Insertions(insost, invsubst, hs)
  {
    if hs == [] {
      assert gs + hs == gs;
    } else {
      var init, last := hs[..|hs| - 1], hs[|hs| - 1];
      assert hs == init + [last];
      assert gs + hs == (gs + init) + [last];
      InsertionsAppend(insost, invsubst, gs, init);
      InsertionsSnoc(insost, invsubst, gs + init, last);
      InsertionsSnoc(insost, invsubst, init, last);
    }
  }

  /** The innermost loop: one insert per pair of `zip(rn7_s, rn8_s)`. */
  method ZipRows(rn7s: seq<string>, rn8s: seq<int>) returns (rows: seq<Insertion>)
    ensures rows == Zip(rn7s, rn8s)
  {
    rows := [];
    var n := Min(|rn7s|, |rn8s|);
    for c := 0 to n
      invariant rows == Zip(rn7s, rn8s)[..c]
    {
      rows := rows + [Insertion(InsostTable, rn7s[c], rn8s[c])];
    }
  }

  lemma PairWithSnoc(prn: int, nomens: seq<int>, b: nat)
    requires b < |nomens|
    ensures PairWith(prn, nomens[..b + 1]) == PairWith(prn, nomens[..b]) + [Group(prn, nomens[b])]
  {
    var l, r := PairWith(prn, nomens[..b + 1]), PairWith(prn, nomens[..b]) + [Group(prn, nomens[b])];
    assert |l| == |r|;
    forall i | 0 <= i < |l| ensures l[i] == r[i] {
      assert nomens[..b + 1][i] == nomens[i];
    }
  }

  /** The middle loop: the groups of one PRN, one NOMEN after another. */
  method PrnRows(insost: seq<InsostRow>, invsubst: seq<SubstRow>, prn: int, nomens: seq<int>) returns (rows: seq<Insertion>)
    ensures rows == Insertions(insost, invsubst, PairWith(prn, nomens))
  {
    rows := [];
    for b := 0 to |nomens|
      invariant rows == Insertions(insost, invsubst, PairWith(prn, nomens[..b]))
    {
      var g := Group(prn, nomens[b]);
      var block := ZipRows(Rn7s(insost, g), Rn8s(invsubst, g));
      PairWithSnoc(prn, nomens, b);
      InsertionsSnoc(insost, invsubst, PairWith(prn, nomens[..b]), g);
      rows := rows + block;
    }
    assert nomens[..|nomens|] == nomens;
  }

  /**
   The loops of `oracle_insert`, with each `cursor.execute` of an insert
   statement replaced by appending the inserted row to `out`.
   */
  method OracleInsertRows(invsubst: seq<SubstRow>, insost: seq<InsostRow>) returns (out: seq<Insertion>)
    ensures out == Plan(insost, invsubst)
  {
    out := [];
    var prns := Unique(Prns(invsubst));
    for a := 0 to |prns|
      invariant out == Insertions(insost, invsubst, GroupsOf(invsubst, prns[..a]))
    {
      var prn := prns[a];
      var prnNom := Unique(NomensOf(invsubst, prn));
      var rows := PrnRows(insost, invsubst, prn, prnNom);
      GroupsOfSnoc(invsubst, prns, a);
      InsertionsAppend(insost, invsubst, GroupsOf(invsubst, prns[..a]), PairWith(prn, prnNom));
      out := out + rows;
    }
    assert prns[..|prns|] == prns;
  }

}
