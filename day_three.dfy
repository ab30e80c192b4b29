/**
 * The fabric claims of day-three/src/main.rs, over already-parsed claims.
 * Each claim marks the cells of its rectangle in `fabric_map`: a cell holds
 * the id of the claim that last marked it and a count that stops at 2. The
 * loop counts the cells that become shared, and keeps the set of claims that
 * have not (yet) shared a cell.
 */
module FabricClaims {

  /** A claim `#id @ x,y: widthxheight`. */
  datatype Claim = Claim(id: string, x: nat, y: nat, width: nat, height: nat)

  type Cell = (nat, nat)

  /** The claim covers the cell (row, column): rows `y..y+height`, columns `x..x+width`. */
  predicate Covers(c: Claim, cell: Cell)
  {
    c.y <= cell.0 < c.y + c.height && c.x <= cell.1 < c.x + c.width
  }

  /** No two claims carry the same id. */
  predicate DistinctIds(claims: seq<Claim>)
  {
    forall j, j' :: 0 <= j < j' < |claims| ==> claims[j].id != claims[j'].id
  }

  /**
   * How far the loops have got: claims before `i` are done; when `started`,
   * claim `i` has been put in `perfect_claims` and its cells before
   * (`row`, `col`) in row-major order are marked.
   */
  datatype Pos = Pos(i: nat, started: bool, row: nat, col: nat)

  /** Cell (r, c) comes before (row, col) in row-major order. */
  predicate Before(cell: Cell, row: nat, col: nat)
  {
    cell.0 < row || (cell.0 == row && cell.1 < col)
  }

  /** Claim `j` has marked `cell` by position `p`. */
  predicate Marked(claims: seq<Claim>, p: Pos, j: int, cell: Cell)
  {
    0 <= j < |claims| && Covers(claims[j], cell) &&
    (j < p.i || (p.started && j == p.i && Before(cell, p.row, p.col)))
  }

  /** Claim `j` has been read by position `p`. */
  predicate Read(claims: seq<Claim>, p: Pos, j: int)
  {
    0 <= j < |claims| && (j < p.i || (p.started && j == p.i))
  }

  /** The cells marked twice or more. */
  function Shared(fabric: map<Cell, (string, int)>): set<Cell>
  {
    set cell | cell in fabric && fabric[cell].1 == 2
  }

  /** `fabric_map` holds exactly the marked cells. */
  ghost predicate CoverageOk(claims: seq<Claim>, p: Pos, fabric: map<Cell, (string, int)>)
  {
    forall cell :: cell in fabric <==> exists j :: Marked(claims, p, j, cell)
  }

  /**
   * Every cell's count is 1 when one claim marked it and 2 when two or more
   * did, and its owner is the claim that marked it last.
   */
  ghost predicate CellsOk(claims: seq<Claim>, p: Pos, fabric: map<Cell, (string, int)>)
  {
    (forall cell :: cell in fabric ==> fabric[cell].1 == 1 || fabric[cell].1 == 2) &&
    (forall cell :: cell in fabric ==> LastMarker(claims, p, cell, fabric[cell].0)) &&
    (forall cell, j, j' :: cell in fabric && fabric[cell].1 == 1 && Marked(claims, p, j, cell) && Marked(claims, p, j', cell) ==> j == j') &&
    (forall cell :: cell in fabric && fabric[cell].1 == 2 ==> TwoMarkers(claims, p, cell))
  }

  /** `owner` is the id of the last claim that marked `cell`. */
  ghost predicate LastMarker(claims: seq<Claim>, p: Pos, cell: Cell, owner: string)
  {
    exists j :: Marked(claims, p, j, cell) && claims[j].id == owner && forall j' :: Marked(claims, p, j', cell) ==> j' <= j
  }

  /** Two different claims marked `cell`. */
  ghost predicate TwoMarkers(claims: seq<Claim>, p: Pos, cell: Cell)
  {
    exists j, j' :: j != j' && Marked(claims, p, j, cell) && Marked(claims, p, j', cell)
  }

  /**
   * `perfect_claims` holds only ids of claims read so far; with distinct ids,
   * a read claim is in it exactly when every cell it has marked has count 1.
   */
  ghost predicate PerfectOk(claims: seq<Claim>, p: Pos, fabric: map<Cell, (string, int)>, perfect: set<string>)
  {
    (forall id :: id in perfect ==> exists j :: Read(claims, p, j) && claims[j].id == id) &&
    (DistinctIds(claims) ==> forall j :: Read(claims, p, j) ==> (claims[j].id in perfect <==> Alone(claims, p, fabric, j)))
  }

  /** Every cell claim `j` has marked so far has count 1. */
  ghost predicate Alone(claims: seq<Claim>, p: Pos, fabric: map<Cell, (string, int)>, j: int)
  {
    forall cell :: Marked(claims, p, j, cell) ==> cell in fabric && fabric[cell].1 == 1
  }

  ghost predicate Inv(claims: seq<Claim>, p: Pos, fabric: map<Cell, (string, int)>, overlaps: int, perfect: set<string>)
  {
    CoverageOk(claims, p, fabric) && CellsOk(claims, p, fabric) &&
    overlaps == |Shared(fabric)| && PerfectOk(claims, p, fabric, perfect)
  }

  /** Two positions that have marked the same cells see the same coverage and counts. */
  lemma TransferCells(claims: seq<Claim>, p: Pos, q: Pos, fabric: map<Cell, (string, int)>)
    requires CoverageOk(claims, p, fabric) && CellsOk(claims, p, fabric)
    requires forall j, cell :: Marked(claims, p, j, cell) == Marked(claims, q, j, cell)
    ensures CoverageOk(claims, q, fabric) && CellsOk(claims, q, fabric)
  {
    forall cell | cell in fabric
      ensures LastMarker(claims, q, cell, fabric[cell].0)
    {
      assert LastMarker(claims, p, cell, fabric[cell].0);
      var j :| Marked(claims, p, j, cell) && claims[j].id == fabric[cell].0 &&
        forall j' :: Marked(claims, p, j', cell) ==> j' <= j;
      assert Marked(claims, q, j, cell);
    }
    forall cell | cell in fabric && fabric[cell].1 == 2
      ensures TwoMarkers(claims, q, cell)
    {
      assert TwoMarkers(claims, p, cell);
      var j, j' :| j != j' && Marked(claims, p, j, cell) && Marked(claims, p, j', cell);
      assert Marked(claims, q, j, cell) && Marked(claims, q, j', cell);
    }
    forall cell
      ensures cell in fabric <==> exists j :: Marked(claims, q, j, cell)
    {
      if cell in fabric {
        var j :| Marked(claims, p, j, cell);
        assert Marked(claims, q, j, cell);
      }
    }
  }

  /** Two positions that have marked the same cells and read the same claims have the same invariant. */
  lemma Transfer(claims: seq<Claim>, p: Pos, q: Pos, fabric: map<Cell, (string, int)>, overlaps: int, perfect: set<string>)
    requires Inv(claims, p, fabric, overlaps, perfect)
    requires forall j, cell :: Marked(claims, p, j, cell) == Marked(claims, q, j, cell)
    requires forall j :: Read(claims, p, j) == Read(claims, q, j)
    ensures Inv(claims, q, fabric, overlaps, perfect)
  {
    TransferCells(claims, p, q, fabric);
    forall id | id in perfect
      ensures exists j :: Read(claims, q, j) && claims[j].id == id
    {
      var j :| Read(claims, p, j) && claims[j].id == id;
      assert Read(claims, q, j);
    }
    forall j | Read(claims, q, j)
      ensures Alone(claims, q, fabric, j) == Alone(claims, p, fabric, j)
    {
    }
  }

  /** Marking the cell at `p` moves the position one column on: that cell gains claim `p.i` as a marker. */
  lemma MarkedStep(claims: seq<Claim>, p: Pos, j: int, cell: Cell)
    requires p.started && p.i < |claims| && Covers(claims[p.i], (p.row, p.col))
    ensures Marked(claims, p.(col := p.col + 1), j, cell) <==> Marked(claims, p, j, cell) || (j == p.i && cell == (p.row, p.col))
  {
  }

  /** The first claim to reach a cell: the cell gets count 1 and owner `id`, nothing else changes. */
  lemma MarkFresh(claims: seq<Claim>, p: Pos, fabric: map<Cell, (string, int)>, overlaps: int, perfect: set<string>)
    requires Inv(claims, p, fabric, overlaps, perfect)
    requires p.started && p.i < |claims| && Covers(claims[p.i], (p.row, p.col)) && (p.row, p.col) !in fabric
    ensures Inv(claims, p.(col := p.col + 1), fabric[(p.row, p.col) := (claims[p.i].id, 1)], overlaps, perfect)
  {
    var here := (p.row, p.col);
    var fabric' := fabric[here := (claims[p.i].id, 1)];
    MarkCoverage(claims, p, fabric, (claims[p.i].id, 1));
    FreshCells(claims, p, fabric);
    FreshPerfect(claims, p, fabric, perfect);
    assert Shared(fabric') == Shared(fabric);
  }

  /** No claim has marked a cell that is not in `fabric_map`. */
  lemma UnmarkedCell(claims: seq<Claim>, p: Pos, fabric: map<Cell, (string, int)>, j: int, cell: Cell)
    requires CoverageOk(claims, p, fabric) && cell !in fabric
    ensures !Marked(claims, p, j, cell)
  {
  }

  lemma FreshCells(claims: seq<Claim>, p: Pos, fabric: map<Cell, (string, int)>)
    requires CellsOk(claims, p, fabric) && CoverageOk(claims, p, fabric)
    requires p.started && p.i < |claims| && Covers(claims[p.i], (p.row, p.col)) && (p.row, p.col) !in fabric
    ensures CellsOk(claims, p.(col := p.col + 1), fabric[(p.row, p.col) := (claims[p.i].id, 1)])
  {
    var q, here, id := p.(col := p.col + 1), (p.row, p.col), claims[p.i].id;
    var fabric' := fabric[here := (id, 1)];
    forall j, cell
      ensures Marked(claims, q, j, cell) <==> Marked(claims, p, j, cell) || (j == p.i && cell == here)
    {
      MarkedStep(claims, p, j, cell);
    }
    forall j
      ensures !Marked(claims, p, j, here)
    {
      UnmarkedCell(claims, p, fabric, j, here);
    }
    forall cell | cell in fabric'
      ensures LastMarker(claims, q, cell, fabric'[cell].0)
    {
      if cell == here {
        assert Marked(claims, q, p.i, here);
      } else {
        var j :| Marked(claims, p, j, cell) && claims[j].id == fabric[cell].0 &&
          forall j' :: Marked(claims, p, j', cell) ==> j' <= j;
        assert Marked(claims, q, j, cell);
      }
    }
    forall cell | cell in fabric' && fabric'[cell].1 == 2
      ensures TwoMarkers(claims, q, cell)
    {
      var j, j' :| j != j' && Marked(claims, p, j, cell) && Marked(claims, p, j', cell);
      assert Marked(claims, q, j, cell) && Marked(claims, q, j', cell);
    }
  }

  lemma FreshPerfect(claims: seq<Claim>, p: Pos, fabric: map<Cell, (string, int)>, perfect: set<string>)
    requires CoverageOk(claims, p, fabric) && PerfectOk(claims, p, fabric, perfect)
    requires p.started && p.i < |claims| && Covers(claims[p.i], (p.row, p.col)) && (p.row, p.col) !in fabric
    ensures PerfectOk(claims, p.(col := p.col + 1), fabric[(p.row, p.col) := (claims[p.i].id, 1)], perfect)
  {
    var q, here := p.(col := p.col + 1), (p.row, p.col);
    var fabric' := fabric[here := (claims[p.i].id, 1)];
    forall x | x in perfect
      ensures exists j :: Read(claims, q, j) && claims[j].id == x
    {
      var j :| Read(claims, p, j) && claims[j].id == x;
      assert Read(claims, q, j);
    }
    forall j | Read(claims, q, j)
      ensures Alone(claims, q, fabric', j) == Alone(claims, p, fabric, j)
    {
      forall cell
        ensures Marked(claims, q, j, cell) <==> Marked(claims, p, j, cell) || (j == p.i && cell == here)
      {
        MarkedStep(claims, p, j, cell);
      }
    }
  }

  /** The claim that last marked the cell at `p`, which is an earlier claim. */
  lemma OwnerOfHere(claims: seq<Claim>, p: Pos, fabric: map<Cell, (string, int)>) returns (owner: int)
    requires CellsOk(claims, p, fabric)
    requires p.started && p.i < |claims| && (p.row, p.col) in fabric
    ensures Marked(claims, p, owner, (p.row, p.col)) && claims[owner].id == fabric[(p.row, p.col)].0 && owner < p.i
    ensures forall j :: Marked(claims, p, j, (p.row, p.col)) ==> j <= owner
  {
    var here := (p.row, p.col);
    assert LastMarker(claims, p, here, fabric[here].0);
    owner :| Marked(claims, p, owner, here) && claims[owner].id == fabric[here].0 &&
      forall j' :: Marked(claims, p, j', here) ==> j' <= owner;
  }

  /** Marking the cell at `p`, whatever its new value, keeps `fabric_map` equal to the marked cells. */
  lemma MarkCoverage(claims: seq<Claim>, p: Pos, fabric: map<Cell, (string, int)>, value: (string, int))
    requires CoverageOk(claims, p, fabric)
    requires p.started && p.i < |claims| && Covers(claims[p.i], (p.row, p.col))
    ensures CoverageOk(claims, p.(col := p.col + 1), fabric[(p.row, p.col) := value])
  {
    var q, here := p.(col := p.col + 1), (p.row, p.col);
    var fabric' := fabric[here := value];
    forall cell
      ensures cell in fabric' <==> exists j :: Marked(claims, q, j, cell)
    {
      if cell == here {
        assert Marked(claims, q, p.i, here);
      } else {
        if cell in fabric {
          var j :| Marked(claims, p, j, cell);
          assert Marked(claims, q, j, cell);
        }
        forall j | Marked(claims, q, j, cell)
          ensures cell in fabric
        {
          MarkedStep(claims, p, j, cell);
        }
      }
    }
  }

  lemma SharedCells(claims: seq<Claim>, p: Pos, fabric: map<Cell, (string, int)>)
    requires CellsOk(claims, p, fabric)
    requires p.started && p.i < |claims| && Covers(claims[p.i], (p.row, p.col)) && (p.row, p.col) in fabric
    ensures CellsOk(claims, p.(col := p.col + 1), fabric[(p.row, p.col) := (claims[p.i].id, 2)])
  {
    var q, here, id := p.(col := p.col + 1), (p.row, p.col), claims[p.i].id;
    var fabric' := fabric[here := (id, 2)];
    var owner := OwnerOfHere(claims, p, fabric);
    forall j, cell
      ensures Marked(claims, q, j, cell) <==> Marked(claims, p, j, cell) || (j == p.i && cell == here)
    {
      MarkedStep(claims, p, j, cell);
    }
    forall cell | cell in fabric'
      ensures LastMarker(claims, q, cell, fabric'[cell].0)
    {
      if cell == here {
        assert Marked(claims, q, p.i, here);
      } else {
        var j :| Marked(claims, p, j, cell) && claims[j].id == fabric[cell].0 &&
          forall j' :: Marked(claims, p, j', cell) ==> j' <= j;
        assert Marked(claims, q, j, cell);
      }
    }
    forall cell | cell in fabric' && fabric'[cell].1 == 2
      ensures TwoMarkers(claims, q, cell)
    {
      if cell == here {
        assert Marked(claims, q, p.i, here) && Marked(claims, q, owner, here);
      } else {
        var j, j' :| j != j' && Marked(claims, p, j, cell) && Marked(claims, p, j', cell);
        assert Marked(claims, q, j, cell) && Marked(claims, q, j', cell);
      }
    }
  }

  lemma SharedPerfect(claims: seq<Claim>, p: Pos, fabric: map<Cell, (string, int)>, perfect: set<string>)
    requires CellsOk(claims, p, fabric) && CoverageOk(claims, p, fabric) && PerfectOk(claims, p, fabric, perfect)
    requires p.started && p.i < |claims| && Covers(claims[p.i], (p.row, p.col)) && (p.row, p.col) in fabric
    ensures PerfectOk(claims, p.(col := p.col + 1), fabric[(p.row, p.col) := (claims[p.i].id, 2)],
                      perfect - {fabric[(p.row, p.col)].0} - {claims[p.i].id})
  {
    var q, here, id := p.(col := p.col + 1), (p.row, p.col), claims[p.i].id;
    var fabric' := fabric[here := (id, 2)];
    var perfect' := perfect - {fabric[here].0} - {id};
    forall x | x in perfect'
      ensures exists j :: Read(claims, q, j) && claims[j].id == x
    {
      var j :| Read(claims, p, j) && claims[j].id == x;
      assert Read(claims, q, j);
    }
    if DistinctIds(claims) {
      var owner := OwnerOfHere(claims, p, fabric);
      forall j | Read(claims, q, j)
        ensures claims[j].id in perfect' <==> Alone(claims, q, fabric', j)
      {
        SharedAlone(claims, p, fabric, perfect, owner, j);
      }
    }
  }

  /** How one claim's standing in `perfect_claims` changes when the cell at `p` becomes shared. */
  lemma SharedAlone(claims: seq<Claim>, p: Pos, fabric: map<Cell, (string, int)>, perfect: set<string>, owner: int, j: int)
    requires CellsOk(claims, p, fabric) && PerfectOk(claims, p, fabric, perfect) && DistinctIds(claims)
    requires p.started && p.i < |claims| && Covers(claims[p.i], (p.row, p.col)) && (p.row, p.col) in fabric
    requires Marked(claims, p, owner, (p.row, p.col)) && claims[owner].id == fabric[(p.row, p.col)].0 && owner < p.i
    requires Read(claims, p.(col := p.col + 1), j)
    ensures var here := (p.row, p.col);
      claims[j].id in perfect - {fabric[here].0} - {claims[p.i].id} <==>
      Alone(claims, p.(col := p.col + 1), fabric[here := (claims[p.i].id, 2)], j)
  {
    var q, here, id := p.(col := p.col + 1), (p.row, p.col), claims[p.i].id;
    var fabric' := fabric[here := (id, 2)];
    assert Read(claims, p, j);
    MarkedStep(claims, p, j, here);
    if j == p.i || j == owner {
      assert Marked(claims, q, j, here);
    } else if Marked(claims, p, j, here) {
      assert fabric[here].1 == 2;
      assert !Alone(claims, p, fabric, j);
      assert Marked(claims, q, j, here);
    } else {
      forall cell
        ensures Marked(claims, q, j, cell) == Marked(claims, p, j, cell)
      {
        MarkedStep(claims, p, j, cell);
      }
      assert Alone(claims, q, fabric', j) == Alone(claims, p, fabric, j);
    }
  }

  /**
   * A later claim reaching a marked cell: the cell's count becomes 2, its owner
   * `id`, `overlaps` grows when the count was 1, and both the previous owner
   * and `id` leave `perfect_claims`.
   */
  lemma MarkShared(claims: seq<Claim>, p: Pos, fabric: map<Cell, (string, int)>, overlaps: int, perfect: set<string>)
    requires Inv(claims, p, fabric, overlaps, perfect)
    requires p.started && p.i < |claims| && Covers(claims[p.i], (p.row, p.col)) && (p.row, p.col) in fabric
    ensures var here := (p.row, p.col);
      Inv(claims, p.(col := p.col + 1), fabric[here := (claims[p.i].id, 2)],
          overlaps + (if fabric[here].1 == 1 then 1 else 0), perfect - {fabric[here].0} - {claims[p.i].id})
  {
    var here, id := (p.row, p.col), claims[p.i].id;
    var fabric' := fabric[here := (id, 2)];
    MarkCoverage(claims, p, fabric, (id, 2));
    SharedCells(claims, p, fabric);
    SharedPerfect(claims, p, fabric, perfect);
    SharedCount(fabric, here, id);
  }

  /** Raising a cell's count to 2 adds it to the shared cells exactly when its count was 1. */
  lemma SharedCount(fabric: map<Cell, (string, int)>, here: Cell, id: string)
    requires here in fabric && (fabric[here].1 == 1 || fabric[here].1 == 2)
    ensures |Shared(fabric[here := (id, 2)])| == |Shared(fabric)| + (if fabric[here].1 == 1 then 1 else 0)
  {
    var fabric' := fabric[here := (id, 2)];
    if fabric[here].1 == 1 {
      assert Shared(fabric') == Shared(fabric) + {here};
    } else {
      assert Shared(fabric') == Shared(fabric);
    }
  }

  /** Reading claim `i` puts its id in `perfect_claims`; none of its cells is marked yet. */
  lemma StartClaim(claims: seq<Claim>, i: nat, fabric: map<Cell, (string, int)>, overlaps: int, perfect: set<string>)
    requires i < |claims| && Inv(claims, Pos(i, false, 0, 0), fabric, overlaps, perfect)
    ensures Inv(claims, Pos(i, true, claims[i].y, claims[i].x), fabric, overlaps, perfect + {claims[i].id})
  {
    var p, q := Pos(i, false, 0, 0), Pos(i, true, claims[i].y, claims[i].x);
    forall j, cell
      ensures Marked(claims, p, j, cell) == Marked(claims, q, j, cell)
    {
    }
    TransferCells(claims, p, q, fabric);
    StartPerfect(claims, i, fabric, perfect);
  }

  lemma StartPerfect(claims: seq<Claim>, i: nat, fabric: map<Cell, (string, int)>, perfect: set<string>)
    requires i < |claims| && PerfectOk(claims, Pos(i, false, 0, 0), fabric, perfect)
    ensures PerfectOk(claims, Pos(i, true, claims[i].y, claims[i].x), fabric, perfect + {claims[i].id})
  {
    var p, q := Pos(i, false, 0, 0), Pos(i, true, claims[i].y, claims[i].x);
    forall x | x in perfect + {claims[i].id}
      ensures exists j :: Read(claims, q, j) && claims[j].id == x
    {
      if x == claims[i].id {
        assert Read(claims, q, i);
      } else {
        var j :| Read(claims, p, j) && claims[j].id == x;
        assert Read(claims, q, j);
      }
    }
    if DistinctIds(claims) {
      forall j | Read(claims, q, j)
        ensures claims[j].id in perfect + {claims[i].id} <==> Alone(claims, q, fabric, j)
      {
        if j < i {
          assert Read(claims, p, j);
          assert Alone(claims, q, fabric, j) == Alone(claims, p, fabric, j);
        }
      }
    }
  }

  /** The starting state: nothing read, nothing marked. */
  lemma Initial(claims: seq<Claim>)
    ensures Inv(claims, Pos(0, false, 0, 0), map[], 0, {})
  {
    assert Shared(map[]) == {};
  }

  /** `owner` is the id of the last claim covering `cell`. */
  ghost predicate LastCover(claims: seq<Claim>, cell: Cell, owner: string)
  {
    exists j :: 0 <= j < |claims| && Covers(claims[j], cell) && claims[j].id == owner &&
      forall j' :: j < j' < |claims| ==> !Covers(claims[j'], cell)
  }

  /** No other claim covers any cell of claim `j`. */
  ghost predicate NoOverlap(claims: seq<Claim>, j: int)
    requires 0 <= j < |claims|
  {
    forall j', cell :: 0 <= j' < |claims| && j' != j && Covers(claims[j], cell) ==> !Covers(claims[j'], cell)
  }

  /** Once every claim is processed, the invariant says what the fabric and the perfect claims are. */
  lemma Finish(claims: seq<Claim>, fabric: map<Cell, (string, int)>, overlaps: int, perfect: set<string>)
    requires Inv(claims, Pos(|claims|, false, 0, 0), fabric, overlaps, perfect)
    ensures forall cell :: cell in fabric <==> exists j :: 0 <= j < |claims| && Covers(claims[j], cell)
    ensures forall cell :: cell in fabric ==>
      (fabric[cell].1 == 2 <==> exists j, j' :: 0 <= j < j' < |claims| && Covers(claims[j], cell) && Covers(claims[j'], cell))
    ensures forall cell :: cell in fabric ==> LastCover(claims, cell, fabric[cell].0)
    ensures forall x :: x in perfect ==> exists j :: 0 <= j < |claims| && claims[j].id == x
    ensures DistinctIds(claims) ==> forall j :: 0 <= j < |claims| ==> (claims[j].id in perfect <==> NoOverlap(claims, j))
  {
    var end := Pos(|claims|, false, 0, 0);
    forall cell
      ensures cell in fabric <==> exists j :: 0 <= j < |claims| && Covers(claims[j], cell)
    {
      if cell in fabric {
        var j :| Marked(claims, end, j, cell);
      } else {
        forall j | 0 <= j < |claims|
          ensures !Covers(claims[j], cell)
        {
          assert !Marked(claims, end, j, cell);
        }
      }
    }
    forall cell | cell in fabric
      ensures fabric[cell].1 == 2 <==> exists j, j' :: 0 <= j < j' < |claims| && Covers(claims[j], cell) && Covers(claims[j'], cell)
    {
      if fabric[cell].1 == 2 {
        assert TwoMarkers(claims, end, cell);
        var j, j' :| j != j' && Marked(claims, end, j, cell) && Marked(claims, end, j', cell);
        if j < j' {
          assert 0 <= j < j' < |claims| && Covers(claims[j], cell) && Covers(claims[j'], cell);
        } else {
          assert 0 <= j' < j < |claims| && Covers(claims[j'], cell) && Covers(claims[j], cell);
        }
      } else {
        forall j, j' | 0 <= j < j' < |claims| && Covers(claims[j], cell)
          ensures !Covers(claims[j'], cell)
        {
          if Covers(claims[j'], cell) {
            assert Marked(claims, end, j, cell) && Marked(claims, end, j', cell);
          }
        }
      }
    }
    forall cell | cell in fabric
      ensures LastCover(claims, cell, fabric[cell].0)
    {
      assert LastMarker(claims, end, cell, fabric[cell].0);
      var j :| Marked(claims, end, j, cell) && claims[j].id == fabric[cell].0 &&
        forall j' :: Marked(claims, end, j', cell) ==> j' <= j;
      forall j' | j < j' < |claims|
        ensures !Covers(claims[j'], cell)
      {
        if Covers(claims[j'], cell) {
          assert Marked(claims, end, j', cell);
        }
      }
    }
    forall x | x in perfect
      ensures exists j :: 0 <= j < |claims| && claims[j].id == x
    {
      var j :| Read(claims, end, j) && claims[j].id == x;
    }
    if DistinctIds(claims) {
      forall j | 0 <= j < |claims|
        ensures claims[j].id in perfect <==> NoOverlap(claims, j)
      {
        assert Read(claims, end, j);
        AloneMeans(claims, fabric, j);
      }
    }
  }

  /** At the end, a claim whose cells all have count 1 is one that shares no cell. */
  lemma AloneMeans(claims: seq<Claim>, fabric: map<Cell, (string, int)>, j: int)
    requires 0 <= j < |claims|
    requires CoverageOk(claims, Pos(|claims|, false, 0, 0), fabric) && CellsOk(claims, Pos(|claims|, false, 0, 0), fabric)
    ensures Alone(claims, Pos(|claims|, false, 0, 0), fabric, j) <==> NoOverlap(claims, j)
  {
    var end := Pos(|claims|, false, 0, 0);
    if Alone(claims, end, fabric, j) {
      forall j', cell | 0 <= j' < |claims| && j' != j && Covers(claims[j], cell)
        ensures !Covers(claims[j'], cell)
      {
        assert Marked(claims, end, j, cell);
        if Covers(claims[j'], cell) {
          assert Marked(claims, end, j', cell);
        }
      }
    }
    if NoOverlap(claims, j) {
      forall cell | Marked(claims, end, j, cell)
        ensures cell in fabric && fabric[cell].1 == 1
      {
      }
    }
  }

  /** The `for line in reader.lines()` loop of `main` over the parsed claims. */
  method Survey(claims: seq<Claim>) returns (fabric: map<Cell, (string, int)>, overlaps: int, perfect: set<string>)
    ensures forall cell :: cell in fabric <==> exists j :: 0 <= j < |claims| && Covers(claims[j], cell)
    ensures forall cell :: cell in fabric ==> fabric[cell].1 == 1 || fabric[cell].1 == 2
    ensures forall cell :: cell in fabric ==>
      (fabric[cell].1 == 2 <==> exists j, j' :: 0 <= j < j' < |claims| && Covers(claims[j], cell) && Covers(claims[j'], cell))
    ensures forall cell :: cell in fabric ==> LastCover(claims, cell, fabric[cell].0)
    ensures overlaps == |Shared(fabric)|
    ensures forall x :: x in perfect ==> exists j :: 0 <= j < |claims| && claims[j].id == x
    ensures DistinctIds(claims) ==> forall j :: 0 <= j < |claims| ==> (claims[j].id in perfect <==> NoOverlap(claims, j))
  {
    fabric, overlaps, perfect := map[], 0, {};
    Initial(claims);
    for i := 0 to |claims|
      invariant Inv(claims, Pos(i, false, 0, 0), fabric, overlaps, perfect)
    {
      fabric, overlaps, perfect := MarkClaim(claims, i, fabric, overlaps, perfect);
    }
    Finish(claims, fabric, overlaps, perfect);
  }

  /** The three claims of the puzzle's example: `#1 @ 1,3: 4x4`, `#2 @ 3,1: 4x4` and `#3 @ 5,5: 2x2`. */
  function ExampleClaims(): seq<Claim>
  {
    [Claim("1", 1, 3, 4, 4), Claim("2", 3, 1, 4, 4), Claim("3", 5, 5, 2, 2)]
  }

  /** In the example, claims 1 and 2 share cell (3, 3) and claim 3 shares no cell. */
  lemma ExampleOverlaps()
    ensures var claims := ExampleClaims();
      DistinctIds(claims) && Covers(claims[0], (3, 3)) && Covers(claims[1], (3, 3)) &&
      !NoOverlap(claims, 0) && !NoOverlap(claims, 1) && NoOverlap(claims, 2)
  {
    var claims := ExampleClaims();
    assert Covers(claims[0], (3, 3)) && Covers(claims[1], (3, 3));
  }

  /**
   * Surveying the example claims: cell (3, 3) is shared, so claims 1 and 2
   * leave `perfect_claims` and claim 3 alone stays in it.
   */
  method OverlapExample() returns (fabric: map<Cell, (string, int)>, overlaps: int, perfect: set<string>)
    ensures (3, 3) in fabric && fabric[(3, 3)].1 == 2
    ensures "1" !in perfect && "2" !in perfect && "3" in perfect
  {
    var claims := ExampleClaims();
    fabric, overlaps, perfect := Survey(claims);
    ExampleOverlaps();
    assert (3, 3) in fabric by {
      assert 0 <= 0 < |claims| && Covers(claims[0], (3, 3));
    }
    assert fabric[(3, 3)].1 == 2 by {
      assert 0 <= 0 < 1 < |claims| && Covers(claims[0], (3, 3)) && Covers(claims[1], (3, 3));
    }
    assert claims[0].id == "1" && claims[1].id == "2" && claims[2].id == "3";
  }

  /** One claim: its id joins `perfect_claims`, then the `for row` loop marks its rectangle row by row. */
  method MarkClaim(claims: seq<Claim>, i: nat, fabric: map<Cell, (string, int)>, overlaps: int, perfect: set<string>)
    returns (fabric': map<Cell, (string, int)>, overlaps': int, perfect': set<string>)
    requires i < |claims| && Inv(claims, Pos(i, false, 0, 0), fabric, overlaps, perfect)
    ensures Inv(claims, Pos(i + 1, false, 0, 0), fabric', overlaps', perfect')
  {
    var c := claims[i];
    StartClaim(claims, i, fabric, overlaps, perfect);
    fabric', overlaps', perfect' := fabric, overlaps, perfect + {c.id};
    var row := c.y;
    while row < c.y + c.height
      invariant c.y <= row <= c.y + c.height
      invariant Inv(claims, Pos(i, true, row, c.x), fabric', overlaps', perfect')
    {
      fabric', overlaps', perfect' := MarkRow(claims, i, row, fabric', overlaps', perfect');
      row := row + 1;
    }
    ClaimDone(claims, i, row, fabric', overlaps', perfect');
  }

  /** One row of a claim: the `for col` loop. */
  method MarkRow(claims: seq<Claim>, i: nat, row: nat, fabric: map<Cell, (string, int)>, overlaps: int, perfect: set<string>)
    returns (fabric': map<Cell, (string, int)>, overlaps': int, perfect': set<string>)
    requires i < |claims| && claims[i].y <= row < claims[i].y + claims[i].height
    requires Inv(claims, Pos(i, true, row, claims[i].x), fabric, overlaps, perfect)
    ensures Inv(claims, Pos(i, true, row + 1, claims[i].x), fabric', overlaps', perfect')
  {
    var c := claims[i];
    fabric', overlaps', perfect' := fabric, overlaps, perfect;
    var col := c.x;
    while col < c.x + c.width
      invariant c.x <= col <= c.x + c.width
      invariant Inv(claims, Pos(i, true, row, col), fabric', overlaps', perfect')
    {
      fabric', overlaps', perfect' := MarkCell(claims, i, row, col, fabric', overlaps', perfect');
      col := col + 1;
    }
    RowDone(claims, i, row, col, fabric', overlaps', perfect');
  }

  /** The body of the `for col` loop: the `fabric_map.entry((row, col)).or_insert(..)` update of one cell. */
  method MarkCell(claims: seq<Claim>, i: nat, row: nat, col: nat, fabric: map<Cell, (string, int)>, overlaps: int, perfect: set<string>)
    returns (fabric': map<Cell, (string, int)>, overlaps': int, perfect': set<string>)
    requires i < |claims| && Covers(claims[i], (row, col))
    requires Inv(claims, Pos(i, true, row, col), fabric, overlaps, perfect)
    ensures Inv(claims, Pos(i, true, row, col + 1), fabric', overlaps', perfect')
    ensures (row, col) !in fabric ==>
      fabric' == fabric[(row, col) := (claims[i].id, 1)] && overlaps' == overlaps && perfect' == perfect
    ensures (row, col) in fabric ==>
      fabric' == fabric[(row, col) := (claims[i].id, 2)] &&
      overlaps' == overlaps + (if fabric[(row, col)].1 == 1 then 1 else 0) &&
      perfect' == perfect - {fabric[(row, col)].0} - {claims[i].id}
  {
    var id := claims[i].id;
    ghost var p := Pos(i, true, row, col);
    fabric', overlaps', perfect' := fabric, overlaps, perfect;
    var cell := (row, col);
    if cell !in fabric' {
      fabric' := fabric'[cell := (id, 0)];
    }
    var entry := fabric'[cell];
    if entry.1 == 0 {
      assert cell !in fabric && entry.0 == id;
      MarkFresh(claims, p, fabric, overlaps, perfect);
      fabric' := fabric'[cell := (entry.0, 1)];
      assert fabric' == fabric[cell := (id, 1)];
    } else {
      MarkShared(claims, p, fabric, overlaps, perfect);
      if entry.1 == 1 {
        overlaps' := overlaps' + 1;
      }
      perfect' := perfect' - {entry.0};
      perfect' := perfect' - {id};
      fabric' := fabric'[cell := (id, 2)];
      assert cell in fabric && fabric' == fabric[cell := (id, 2)];
    }
  }

  /** The end of a row of claim `i` is the start of the next row. */
  lemma RowDone(claims: seq<Claim>, i: nat, row: nat, end: nat, fabric: map<Cell, (string, int)>, overlaps: int, perfect: set<string>)
    requires i < |claims| && end == claims[i].x + claims[i].width
    requires Inv(claims, Pos(i, true, row, end), fabric, overlaps, perfect)
    ensures Inv(claims, Pos(i, true, row + 1, claims[i].x), fabric, overlaps, perfect)
  {
    var p, q := Pos(i, true, row, end), Pos(i, true, row + 1, claims[i].x);
    forall j, cell
      ensures Marked(claims, p, j, cell) == Marked(claims, q, j, cell)
    {
    }
    Transfer(claims, p, q, fabric, overlaps, perfect);
  }

  /** After its last row, claim `i` is done. */
  lemma ClaimDone(claims: seq<Claim>, i: nat, end: nat, fabric: map<Cell, (string, int)>, overlaps: int, perfect: set<string>)
    requires i < |claims| && end == claims[i].y + claims[i].height
    requires Inv(claims, Pos(i, true, end, claims[i].x), fabric, overlaps, perfect)
    ensures Inv(claims, Pos(i + 1, false, 0, 0), fabric, overlaps, perfect)
  {
    var p, q := Pos(i, true, end, claims[i].x), Pos(i + 1, false, 0, 0);
    forall j, cell
      ensures Marked(claims, p, j, cell) == Marked(claims, q, j, cell)
    {
    }
    Transfer(claims, p, q, fabric, overlaps, perfect);
  }
}
