/** The boundary enforcer `setWall`: it fills the ghost border of a field from
    the field's interior. Kind 0 mirrors every edge, kind 1 (horizontal velocity)
    negates the left and right walls, kind 2 (vertical velocity) negates the top
    and bottom walls; every corner is the average of its two neighbouring edge
    ghosts. */
module Walls {
  import opened Layout

  /** The mirrored value of a ghost cell, negated on a wall normal to the component. */
  function Reflect(negate: bool, v: real): real
  {
    if negate then -v else v
  }

  predicate IsCorner(w: nat, h: nat, x: int, y: int)
  {
    (x == 0 || x == w + 1) && (y == 0 || y == h + 1)
  }

  /** Interior cells agree. */
  ghost predicate SameInterior(w: nat, h: nat, s: seq<real>, t: seq<real>)
    requires |s| == Size(w, h) && |t| == Size(w, h)
  {
    IndexLayout(w, h);
    forall x, y :: Inside(w, h, x, y) ==> s[Index(w, x, y)] == t[Index(w, x, y)]
  }

  /** The left and right ghosts of rows 1..n copy the adjacent interior
      cell, negated iff b == 1. */
  ghost predicate SidesReflectedTo(w: nat, h: nat, b: int, t: seq<real>, n: nat)
    requires w >= 1 && h >= 1 && |t| == Size(w, h) && n <= h
  {
    IndexLayout(w, h);
    forall j :: 1 <= j <= n ==>
      t[Index(w, 0, j)] == Reflect(b == 1, t[Index(w, 1, j)]) &&
      t[Index(w, w + 1, j)] == Reflect(b == 1, t[Index(w, w, j)])
  }

  ghost predicate SidesReflected(w: nat, h: nat, b: int, t: seq<real>)
    requires w >= 1 && h >= 1 && |t| == Size(w, h)
  {
    SidesReflectedTo(w, h, b, t, h)
  }

  /** The top and bottom ghosts of columns 1..n copy the adjacent interior
      cell, negated iff b == 2. */
  ghost predicate EndsReflectedTo(w: nat, h: nat, b: int, t: seq<real>, n: nat)
    requires w >= 1 && h >= 1 && |t| == Size(w, h) && n <= w
  {
    IndexLayout(w, h);
    forall i :: 1 <= i <= n ==>
      t[Index(w, i, 0)] == Reflect(b == 2, t[Index(w, i, 1)]) &&
      t[Index(w, i, h + 1)] == Reflect(b == 2, t[Index(w, i, h)])
  }

  ghost predicate EndsReflected(w: nat, h: nat, b: int, t: seq<real>)
    requires w >= 1 && h >= 1 && |t| == Size(w, h)
  {
    EndsReflectedTo(w, h, b, t, w)
  }

  /** Each corner is half the sum of its two neighbouring edge ghosts. */
  ghost predicate CornersAveraged(w: nat, h: nat, t: seq<real>)
    requires w >= 1 && h >= 1 && |t| == Size(w, h)
  {
    IndexLayout(w, h);
    t[Index(w, 0, 0)] == 0.5 * (t[Index(w, 1, 0)] + t[Index(w, 0, 1)]) &&
    t[Index(w, 0, h + 1)] == 0.5 * (t[Index(w, 1, h + 1)] + t[Index(w, 0, h)]) &&
    t[Index(w, w + 1, 0)] == 0.5 * (t[Index(w, w, 0)] + t[Index(w, w + 1, 1)]) &&
    t[Index(w, w + 1, h + 1)] == 0.5 * (t[Index(w, w, h + 1)] + t[Index(w, w + 1, h)])
  }

  /** The ghost border of t is the one that setWall of kind b derives from
      t's own interior. */
  ghost predicate WallPolicy(w: nat, h: nat, b: int, t: seq<real>)
    requires w >= 1 && h >= 1 && |t| == Size(w, h)
  {
    SidesReflected(w, h, b, t) && EndsReflected(w, h, b, t) && CornersAveraged(w, h, t)
  }

  /** What setWall leaves in a cell that is not a corner: interior cells keep
      their value, edge ghosts copy the adjacent interior cell. */
  ghost function EdgeAt(w: nat, h: nat, b: int, s: seq<real>, x: int, y: int): real
    requires w >= 1 && h >= 1 && |s| == Size(w, h)
    requires InGrid(w, h, x, y) && !IsCorner(w, h, x, y)
  {
    IndexLayout(w, h);
    if x == 0 then Reflect(b == 1, s[Index(w, 1, y)])
    else if x == w + 1 then Reflect(b == 1, s[Index(w, w, y)])
    else if y == 0 then Reflect(b == 2, s[Index(w, x, 1)])
    else if y == h + 1 then Reflect(b == 2, s[Index(w, x, h)])
    else s[Index(w, x, y)]
  }

  /** What setWall leaves at position k. */
  ghost function WallAt(w: nat, h: nat, b: int, s: seq<real>, k: int): real
    requires w >= 1 && h >= 1 && |s| == Size(w, h) && 0 <= k < |s|
  {
    Decode(w, h, k);
    var x, y := Col(w, k), Row(w, k);
    if IsCorner(w, h, x, y) then
      var nx := if x == 0 then 1 else w;
      var ny := if y == 0 then 1 else h;
      0.5 * (EdgeAt(w, h, b, s, nx, y) + EdgeAt(w, h, b, s, x, ny))
    else
      EdgeAt(w, h, b, s, x, y)
  }

  /** The field setWall(w, h, b, ·) produces from s. */
  ghost function Walled(w: nat, h: nat, b: int, s: seq<real>): (r: seq<real>)
    requires w >= 1 && h >= 1 && |s| == Size(w, h)
    ensures |r| == |s|
  {
    seq(|s|, k requires 0 <= k < |s| => WallAt(w, h, b, s, k))
  }

  /** setWall keeps the interior and leaves the ghost border its kind demands:
      edge ghosts equal the adjacent interior cell, negated on the left and
      right walls iff b == 1 and on the top and bottom walls iff b == 2, and
      each corner is half the sum of its two neighbouring edge ghosts. */
  lemma WalledPolicy(w: nat, h: nat, b: int, s: seq<real>)
    requires w >= 1 && h >= 1 && |s| == Size(w, h)
    ensures |Walled(w, h, b, s)| == |s|
    ensures SameInterior(w, h, Walled(w, h, b, s), s)
    ensures WallPolicy(w, h, b, Walled(w, h, b, s))
  {
    var t := Walled(w, h, b, s);
    IndexLayout(w, h);
    forall x, y | Inside(w, h, x, y)
      ensures t[Index(w, x, y)] == s[Index(w, x, y)]
    {
      WalledCell(w, h, b, s, x, y);
    }
    forall j | 1 <= j <= h
      ensures t[Index(w, 0, j)] == Reflect(b == 1, t[Index(w, 1, j)])
      ensures t[Index(w, w + 1, j)] == Reflect(b == 1, t[Index(w, w, j)])
    {
      WalledCell(w, h, b, s, 0, j);
      WalledCell(w, h, b, s, 1, j);
      WalledCell(w, h, b, s, w, j);
      WalledCell(w, h, b, s, w + 1, j);
    }
    forall i | 1 <= i <= w
      ensures t[Index(w, i, 0)] == Reflect(b == 2, t[Index(w, i, 1)])
      ensures t[Index(w, i, h + 1)] == Reflect(b == 2, t[Index(w, i, h)])
    {
      WalledCell(w, h, b, s, i, 0);
      WalledCell(w, h, b, s, i, 1);
      WalledCell(w, h, b, s, i, h);
      WalledCell(w, h, b, s, i, h + 1);
    }
    WalledCorners(w, h, b, s);
  }

  /** A cell of Walled(s) that is not a corner. */
  lemma WalledCell(w: nat, h: nat, b: int, s: seq<real>, x: int, y: int)
    requires w >= 1 && h >= 1 && |s| == Size(w, h) && InGrid(w, h, x, y) && !IsCorner(w, h, x, y)
    ensures 0 <= Index(w, x, y) < |s|
    ensures Walled(w, h, b, s)[Index(w, x, y)] == EdgeAt(w, h, b, s, x, y)
  {
    IndexCell(w, h, x, y);
  }

  lemma WalledCorners(w: nat, h: nat, b: int, s: seq<real>)
    requires w >= 1 && h >= 1 && |s| == Size(w, h)
    ensures CornersAveraged(w, h, Walled(w, h, b, s))
  {
    IndexLayout(w, h);
    WalledCell(w, h, b, s, 1, 0);
    WalledCell(w, h, b, s, 0, 1);
    WalledCell(w, h, b, s, 1, h + 1);
    WalledCell(w, h, b, s, 0, h);
    WalledCell(w, h, b, s, w, 0);
    WalledCell(w, h, b, s, w + 1, 1);
    WalledCell(w, h, b, s, w, h + 1);
    WalledCell(w, h, b, s, w + 1, h);
  }

  lemma EdgeAgrees(w: nat, h: nat, b: int, s: seq<real>, t: seq<real>, x: int, y: int)
    requires w >= 1 && h >= 1 && |s| == Size(w, h) && |t| == Size(w, h)
    requires WallPolicy(w, h, b, s) && WallPolicy(w, h, b, t)
    requires SameInterior(w, h, s, t)
    requires InGrid(w, h, x, y) && !IsCorner(w, h, x, y)
    ensures 0 <= Index(w, x, y) < |s| && s[Index(w, x, y)] == t[Index(w, x, y)]
  {
    IndexRange(w, h);
    if x == 0 {
      assert s[Index(w, 1, y)] == t[Index(w, 1, y)];
    } else if x == w + 1 {
      assert s[Index(w, w, y)] == t[Index(w, w, y)];
    } else if y == 0 {
      assert s[Index(w, x, 1)] == t[Index(w, x, 1)];
    } else if y == h + 1 {
      assert s[Index(w, x, h)] == t[Index(w, x, h)];
    }
  }

  lemma CornerAgrees(w: nat, h: nat, b: int, s: seq<real>, t: seq<real>, x: int, y: int)
    requires w >= 1 && h >= 1 && |s| == Size(w, h) && |t| == Size(w, h)
    requires WallPolicy(w, h, b, s) && WallPolicy(w, h, b, t)
    requires SameInterior(w, h, s, t)
    requires IsCorner(w, h, x, y)
    ensures 0 <= Index(w, x, y) < |s| && s[Index(w, x, y)] == t[Index(w, x, y)]
  {
    IndexRange(w, h);
    var x1 := if x == 0 then 1 else w;
    var y1 := if y == 0 then 1 else h;
    EdgeAgrees(w, h, b, s, t, x1, y);
    EdgeAgrees(w, h, b, s, t, x, y1);
  }

  /** The ghost border is derived data: two fields that satisfy the policy and
      agree on the interior are equal. */
  lemma PolicyDetermines(w: nat, h: nat, b: int, s: seq<real>, t: seq<real>)
    requires w >= 1 && h >= 1 && |s| == Size(w, h) && |t| == Size(w, h)
    requires WallPolicy(w, h, b, s) && WallPolicy(w, h, b, t)
    requires SameInterior(w, h, s, t)
    ensures s == t
  {
    forall k | 0 <= k < |s|
      ensures s[k] == t[k]
    {
      Decode(w, h, k);
      var x, y := Col(w, k), Row(w, k);
      if IsCorner(w, h, x, y) {
        CornerAgrees(w, h, b, s, t, x, y);
      } else {
        EdgeAgrees(w, h, b, s, t, x, y);
      }
    }
  }

  lemma SameInteriorTrans(w: nat, h: nat, s: seq<real>, t: seq<real>, u: seq<real>)
    requires |s| == Size(w, h) && |t| == Size(w, h) && |u| == Size(w, h)
    requires SameInterior(w, h, s, t) && SameInterior(w, h, t, u)
    ensures SameInterior(w, h, s, u)
  {
  }

  /** Two fields agree on columns 1..w (every row). */
  ghost predicate ColumnsAgree(w: nat, h: nat, s: seq<real>, t: seq<real>)
    requires |s| == Size(w, h) && |t| == Size(w, h)
  {
    IndexLayout(w, h);
    forall x, y :: InGrid(w, h, x, y) && 1 <= x <= w ==> s[Index(w, x, y)] == t[Index(w, x, y)]
  }

  /** Two fields agree on rows 1..h (every column). */
  ghost predicate RowsAgree(w: nat, h: nat, s: seq<real>, t: seq<real>)
    requires |s| == Size(w, h) && |t| == Size(w, h)
  {
    IndexLayout(w, h);
    forall x, y :: InGrid(w, h, x, y) && 1 <= y <= h ==> s[Index(w, x, y)] == t[Index(w, x, y)]
  }

  /** Two fields agree everywhere except possibly on the four corners. */
  ghost predicate NonCornersAgree(w: nat, h: nat, s: seq<real>, t: seq<real>)
    requires |s| == Size(w, h) && |t| == Size(w, h)
  {
    IndexLayout(w, h);
    forall x, y :: InGrid(w, h, x, y) && !IsCorner(w, h, x, y) ==> s[Index(w, x, y)] == t[Index(w, x, y)]
  }

  /** One iteration of the first loop of setWall, on row j. */
  ghost function SideStep(w: nat, h: nat, b: int, t: seq<real>, j: int): (r: seq<real>)
    requires w >= 1 && h >= 1 && |t| == Size(w, h) && 1 <= j <= h
    ensures |r| == |t|
  {
    IndexLayout(w, h);
    var t1 := t[Index(w, 0, j) := Reflect(b == 1, t[Index(w, 1, j)])];
    t1[Index(w, w + 1, j) := Reflect(b == 1, t1[Index(w, w, j)])]
  }

  /** The field after the first loop of setWall has run for rows 1..j. */
  ghost function SidesUpTo(w: nat, h: nat, b: int, s: seq<real>, j: nat): (r: seq<real>)
    requires w >= 1 && h >= 1 && |s| == Size(w, h) && j <= h
    ensures |r| == |s|
    decreases j
  {
    if j == 0 then s else SideStep(w, h, b, SidesUpTo(w, h, b, s, j - 1), j)
  }

  /** One iteration of the second loop of setWall, on column i. */
  ghost function EndStep(w: nat, h: nat, b: int, t: seq<real>, i: int): (r: seq<real>)
    requires w >= 1 && h >= 1 && |t| == Size(w, h) && 1 <= i <= w
    ensures |r| == |t|
  {
    IndexLayout(w, h);
    var t1 := t[Index(w, i, 0) := Reflect(b == 2, t[Index(w, i, 1)])];
    t1[Index(w, i, h + 1) := Reflect(b == 2, t1[Index(w, i, h)])]
  }

  /** The field after the second loop of setWall has run for columns 1..i. */
  ghost function EndsUpTo(w: nat, h: nat, b: int, s: seq<real>, i: nat): (r: seq<real>)
    requires w >= 1 && h >= 1 && |s| == Size(w, h) && i <= w
    ensures |r| == |s|
    decreases i
  {
    if i == 0 then s else EndStep(w, h, b, EndsUpTo(w, h, b, s, i - 1), i)
  }

  /** The field after the four corner assignments of setWall, in their order. */
  ghost function CornersSet(w: nat, h: nat, s: seq<real>): (r: seq<real>)
    requires w >= 1 && h >= 1 && |s| == Size(w, h)
    ensures |r| == |s|
  {
    IndexLayout(w, h);
    var s1 := s[Index(w, 0, 0) := 0.5 * (s[Index(w, 1, 0)] + s[Index(w, 0, 1)])];
    var s2 := s1[Index(w, 0, h + 1) := 0.5 * (s1[Index(w, 1, h + 1)] + s1[Index(w, 0, h)])];
    var s3 := s2[Index(w, w + 1, 0) := 0.5 * (s2[Index(w, w, 0)] + s2[Index(w, w + 1, 1)])];
    s3[Index(w, w + 1, h + 1) := 0.5 * (s3[Index(w, w, h + 1)] + s3[Index(w, w + 1, h)])]
  }

  /** The field setWall's statements produce, in the order they run. */
  ghost function WallSteps(w: nat, h: nat, b: int, s: seq<real>): (r: seq<real>)
    requires w >= 1 && h >= 1 && |s| == Size(w, h)
    ensures |r| == |s|
  {
    CornersSet(w, h, EndsUpTo(w, h, b, SidesUpTo(w, h, b, s, h), w))
  }

  /** One iteration of the first loop writes only the two side ghosts of its
      row, and extends the reflected rows by that row. */
  lemma SideStepFacts(w: nat, h: nat, b: int, t: seq<real>, j: int)
    requires w >= 1 && h >= 1 && |t| == Size(w, h) && 1 <= j <= h
    ensures ColumnsAgree(w, h, SideStep(w, h, b, t, j), t)
    ensures SidesReflectedTo(w, h, b, t, j - 1) ==> SidesReflectedTo(w, h, b, SideStep(w, h, b, t, j), j)
  {
    var r := SideStep(w, h, b, t, j);
    IndexRange(w, h);
    IndexDistinct(w, h);
    IndexInRange(w, h, 0, j);
    IndexInRange(w, h, w + 1, j);
    forall x, y | InGrid(w, h, x, y) && 1 <= x <= w
      ensures r[Index(w, x, y)] == t[Index(w, x, y)]
    {
      IndexInRange(w, h, x, y);
    }
    if SidesReflectedTo(w, h, b, t, j - 1) {
      forall q | 1 <= q <= j
        ensures r[Index(w, 0, q)] == Reflect(b == 1, r[Index(w, 1, q)])
        ensures r[Index(w, w + 1, q)] == Reflect(b == 1, r[Index(w, w, q)])
      {
        IndexInRange(w, h, 0, q);
        IndexInRange(w, h, 1, q);
        IndexInRange(w, h, w, q);
        IndexInRange(w, h, w + 1, q);
      }
    }
  }

  /** One iteration of the second loop writes only the two end ghosts of its
      column, and extends the reflected columns by that column. */
  lemma EndStepFacts(w: nat, h: nat, b: int, t: seq<real>, i: int)
    requires w >= 1 && h >= 1 && |t| == Size(w, h) && 1 <= i <= w
    ensures RowsAgree(w, h, EndStep(w, h, b, t, i), t)
    ensures EndsReflectedTo(w, h, b, t, i - 1) ==> EndsReflectedTo(w, h, b, EndStep(w, h, b, t, i), i)
  {
    var r := EndStep(w, h, b, t, i);
    IndexRange(w, h);
    IndexDistinct(w, h);
    IndexInRange(w, h, i, 0);
    IndexInRange(w, h, i, h + 1);
    forall x, y | InGrid(w, h, x, y) && 1 <= y <= h
      ensures r[Index(w, x, y)] == t[Index(w, x, y)]
    {
      IndexInRange(w, h, x, y);
    }
    if EndsReflectedTo(w, h, b, t, i - 1) {
      forall p | 1 <= p <= i
        ensures r[Index(w, p, 0)] == Reflect(b == 2, r[Index(w, p, 1)])
        ensures r[Index(w, p, h + 1)] == Reflect(b == 2, r[Index(w, p, h)])
      {
        IndexInRange(w, h, p, 0);
        IndexInRange(w, h, p, 1);
        IndexInRange(w, h, p, h);
        IndexInRange(w, h, p, h + 1);
      }
    }
  }

  lemma ColumnsAgreeTrans(w: nat, h: nat, s: seq<real>, t: seq<real>, u: seq<real>)
    requires |s| == Size(w, h) && |t| == Size(w, h) && |u| == Size(w, h)
    requires ColumnsAgree(w, h, s, t) && ColumnsAgree(w, h, t, u)
    ensures ColumnsAgree(w, h, s, u)
  {
  }

  lemma RowsAgreeTrans(w: nat, h: nat, s: seq<real>, t: seq<real>, u: seq<real>)
    requires |s| == Size(w, h) && |t| == Size(w, h) && |u| == Size(w, h)
    requires RowsAgree(w, h, s, t) && RowsAgree(w, h, t, u)
    ensures RowsAgree(w, h, s, u)
  {
  }

  /** The first loop touches only the side ghosts and reflects rows 1..j. */
  lemma {:induction false} SidesLoop(w: nat, h: nat, b: int, s: seq<real>, j: nat)
    requires w >= 1 && h >= 1 && |s| == Size(w, h) && j <= h
    ensures ColumnsAgree(w, h, SidesUpTo(w, h, b, s, j), s)
    ensures SidesReflectedTo(w, h, b, SidesUpTo(w, h, b, s, j), j)
  {
    if j > 0 {
      var t := SidesUpTo(w, h, b, s, j - 1);
      SidesLoop(w, h, b, s, j - 1);
      SideStepFacts(w, h, b, t, j);
      ColumnsAgreeTrans(w, h, SideStep(w, h, b, t, j), t, s);
    }
  }

  /** The second loop touches only the end ghosts and reflects columns 1..i. */
  lemma {:induction false} EndsLoop(w: nat, h: nat, b: int, s: seq<real>, i: nat)
    requires w >= 1 && h >= 1 && |s| == Size(w, h) && i <= w
    ensures RowsAgree(w, h, EndsUpTo(w, h, b, s, i), s)
    ensures EndsReflectedTo(w, h, b, EndsUpTo(w, h, b, s, i), i)
  {
    if i > 0 {
      var t := EndsUpTo(w, h, b, s, i - 1);
      EndsLoop(w, h, b, s, i - 1);
      EndStepFacts(w, h, b, t, i);
      RowsAgreeTrans(w, h, EndStep(w, h, b, t, i), t, s);
    }
  }

  /** The corner assignments touch only the corners and average them. */
  lemma CornersStep(w: nat, h: nat, s: seq<real>)
    requires w >= 1 && h >= 1 && |s| == Size(w, h)
    ensures NonCornersAgree(w, h, CornersSet(w, h, s), s)
    ensures CornersAveraged(w, h, CornersSet(w, h, s))
  {
    var r := CornersSet(w, h, s);
    IndexRange(w, h);
    IndexDistinct(w, h);
    IndexInRange(w, h, 0, 0);
    IndexInRange(w, h, 0, h + 1);
    IndexInRange(w, h, w + 1, 0);
    IndexInRange(w, h, w + 1, h + 1);
    forall x, y | InGrid(w, h, x, y) && !IsCorner(w, h, x, y)
      ensures r[Index(w, x, y)] == s[Index(w, x, y)]
    {
      IndexInRange(w, h, x, y);
    }
    IndexInRange(w, h, 1, 0);
    IndexInRange(w, h, 0, 1);
    IndexInRange(w, h, 1, h + 1);
    IndexInRange(w, h, 0, h);
    IndexInRange(w, h, w, 0);
    IndexInRange(w, h, w + 1, 1);
    IndexInRange(w, h, w, h + 1);
    IndexInRange(w, h, w + 1, h);
  }

  /** What agreeing on part of the grid carries over. */
  lemma ColumnsKept(w: nat, h: nat, b: int, s: seq<real>, t: seq<real>)
    requires w >= 1 && h >= 1 && |s| == Size(w, h) && |t| == Size(w, h)
    requires ColumnsAgree(w, h, t, s)
    ensures SameInterior(w, h, t, s)
  {
    IndexRange(w, h);
  }

  lemma RowsKept(w: nat, h: nat, b: int, s: seq<real>, t: seq<real>)
    requires w >= 1 && h >= 1 && |s| == Size(w, h) && |t| == Size(w, h)
    requires RowsAgree(w, h, t, s)
    ensures SameInterior(w, h, t, s)
    ensures SidesReflected(w, h, b, s) ==> SidesReflected(w, h, b, t)
  {
    IndexRange(w, h);
  }

  lemma NonCornersKept(w: nat, h: nat, b: int, s: seq<real>, t: seq<real>)
    requires w >= 1 && h >= 1 && |s| == Size(w, h) && |t| == Size(w, h)
    requires NonCornersAgree(w, h, t, s)
    ensures SameInterior(w, h, t, s)
    ensures SidesReflected(w, h, b, s) ==> SidesReflected(w, h, b, t)
    ensures EndsReflected(w, h, b, s) ==> EndsReflected(w, h, b, t)
  {
    IndexRange(w, h);
  }

  /** setWall's statements compute exactly the declarative wall policy. */
  lemma WallStepsWalled(w: nat, h: nat, b: int, s: seq<real>)
    requires w >= 1 && h >= 1 && |s| == Size(w, h)
    ensures WallSteps(w, h, b, s) == Walled(w, h, b, s)
  {
    var s1 := SidesUpTo(w, h, b, s, h);
    var s2 := EndsUpTo(w, h, b, s1, w);
    var t := CornersSet(w, h, s2);
    SidesLoop(w, h, b, s, h);
    EndsLoop(w, h, b, s1, w);
    CornersStep(w, h, s2);
    ColumnsKept(w, h, b, s, s1);
    RowsKept(w, h, b, s1, s2);
    NonCornersKept(w, h, b, s2, t);
    SameInteriorTrans(w, h, t, s2, s1);
    SameInteriorTrans(w, h, t, s1, s);
    WalledPolicy(w, h, b, s);
    SameInteriorTrans(w, h, t, s, Walled(w, h, b, s));
    PolicyDetermines(w, h, b, t, Walled(w, h, b, s));
  }

  /** A field whose border already follows the policy is left as it is. */
  lemma WalledFixes(w: nat, h: nat, b: int, t: seq<real>)
    requires w >= 1 && h >= 1 && |t| == Size(w, h)
    requires WallPolicy(w, h, b, t)
    ensures Walled(w, h, b, t) == t
  {
    WalledPolicy(w, h, b, t);
    PolicyDetermines(w, h, b, Walled(w, h, b, t), t);
  }

  /** setWall only reads the interior: the previous ghost values do not matter. */
  lemma WalledReadsInterior(w: nat, h: nat, b: int, s: seq<real>, t: seq<real>)
    requires w >= 1 && h >= 1 && |s| == Size(w, h) && |t| == Size(w, h)
    requires SameInterior(w, h, s, t)
    ensures Walled(w, h, b, s) == Walled(w, h, b, t)
  {
    WalledPolicy(w, h, b, s);
    WalledPolicy(w, h, b, t);
    PolicyDetermines(w, h, b, Walled(w, h, b, s), Walled(w, h, b, t));
  }

  /** Enforcing the walls twice is the same as enforcing them once. */
  lemma WalledIdempotent(w: nat, h: nat, b: int, s: seq<real>)
    requires w >= 1 && h >= 1 && |s| == Size(w, h)
    ensures Walled(w, h, b, Walled(w, h, b, s)) == Walled(w, h, b, s)
  {
    WalledPolicy(w, h, b, s);
    WalledFixes(w, h, b, Walled(w, h, b, s));
  }

  /** setWall(w, h, b, x): left and right ghosts row by row, then top and
      bottom ghosts column by column, then the four corners. */
  /** setWall of any kind leaves an all-zero buffer all zero. */
  lemma WalledZeros(w: nat, h: nat, b: int)
    requires w >= 1 && h >= 1
    ensures Walled(w, h, b, Zeros(Size(w, h))) == Zeros(Size(w, h))
  {
    var z := Zeros(Size(w, h));
    IndexRange(w, h);
    assert WallPolicy(w, h, b, z);
    WalledFixes(w, h, b, z);
  }

  method SetWall(w: nat, h: nat, b: int, x: array<real>)
    requires w >= 1 && h >= 1 && x.Length == Size(w, h)
    modifies x
    ensures x[..] == Walled(w, h, b, old(x[..]))
  {
    SideWalls(w, h, b, x);
    EndWalls(w, h, b, x);
    Corners(w, h, x);
    WallStepsWalled(w, h, b, old(x[..]));
  }

  /** The first loop of setWall. */
  method SideWalls(w: nat, h: nat, b: int, x: array<real>)
    requires w >= 1 && h >= 1 && x.Length == Size(w, h)
    modifies x
    ensures x[..] == SidesUpTo(w, h, b, old(x[..]), h)
  {
    for j := 1 to h + 1
      invariant x[..] == SidesUpTo(w, h, b, old(x[..]), j - 1)
    {
      SideWallsRow(w, h, b, x, j);
    }
  }

  /** The second loop of setWall. */
  method EndWalls(w: nat, h: nat, b: int, x: array<real>)
    requires w >= 1 && h >= 1 && x.Length == Size(w, h)
    modifies x
    ensures x[..] == EndsUpTo(w, h, b, old(x[..]), w)
  {
    for i := 1 to w + 1
      invariant x[..] == EndsUpTo(w, h, b, old(x[..]), i - 1)
    {
      EndWallsColumn(w, h, b, x, i);
    }
  }

  /** The body of the first loop of setWall: the side ghosts of row j. */
  method SideWallsRow(w: nat, h: nat, b: int, x: array<real>, j: int)
    requires w >= 1 && h >= 1 && x.Length == Size(w, h) && 1 <= j <= h
    modifies x
    ensures x[..] == SideStep(w, h, b, old(x[..]), j)
  {
    IndexInRange(w, h, 0, j);
    IndexInRange(w, h, 1, j);
    IndexInRange(w, h, w, j);
    IndexInRange(w, h, w + 1, j);
    x[Index(w, 0, j)] := if b == 1 then -x[Index(w, 1, j)] else x[Index(w, 1, j)];
    x[Index(w, w + 1, j)] := if b == 1 then -x[Index(w, w, j)] else x[Index(w, w, j)];
  }

  /** The body of the second loop of setWall: the end ghosts of column i. */
  method EndWallsColumn(w: nat, h: nat, b: int, x: array<real>, i: int)
    requires w >= 1 && h >= 1 && x.Length == Size(w, h) && 1 <= i <= w
    modifies x
    ensures x[..] == EndStep(w, h, b, old(x[..]), i)
  {
    IndexInRange(w, h, i, 0);
    IndexInRange(w, h, i, 1);
    IndexInRange(w, h, i, h);
    IndexInRange(w, h, i, h + 1);
    x[Index(w, i, 0)] := if b == 2 then -x[Index(w, i, 1)] else x[Index(w, i, 1)];
    x[Index(w, i, h + 1)] := if b == 2 then -x[Index(w, i, h)] else x[Index(w, i, h)];
  }

  /** The four corner assignments of setWall. */
  method Corners(w: nat, h: nat, x: array<real>)
    requires w >= 1 && h >= 1 && x.Length == Size(w, h)
    modifies x
    ensures x[..] == CornersSet(w, h, old(x[..]))
  {
    IndexInRange(w, h, 0, 0);
    IndexInRange(w, h, 1, 0);
    IndexInRange(w, h, 0, 1);
    IndexInRange(w, h, 0, h + 1);
    IndexInRange(w, h, 1, h + 1);
    IndexInRange(w, h, 0, h);
    IndexInRange(w, h, w + 1, 0);
    IndexInRange(w, h, w, 0);
    IndexInRange(w, h, w + 1, 1);
    IndexInRange(w, h, w + 1, h + 1);
    IndexInRange(w, h, w, h + 1);
    IndexInRange(w, h, w + 1, h);
    x[Index(w, 0, 0)] := 0.5 * (x[Index(w, 1, 0)] + x[Index(w, 0, 1)]);
    x[Index(w, 0, h + 1)] := 0.5 * (x[Index(w, 1, h + 1)] + x[Index(w, 0, h)]);
    x[Index(w, w + 1, 0)] := 0.5 * (x[Index(w, w, 0)] + x[Index(w, w + 1, 1)]);
    x[Index(w, w + 1, h + 1)] := 0.5 * (x[Index(w, w, h + 1)] + x[Index(w, w + 1, h)]);
  }
}
