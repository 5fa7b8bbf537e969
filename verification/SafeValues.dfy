/** Safe values: one value per parameter that no faulty combination uses, and the padding built on them. */
module SafeValues {
  import opened Results
  import opened Combs

  type Row = seq<string>

  ghost predicate Blank(row: Row) {
    forall i :: 0 <= i < |row| ==> row[i] == ""
  }

  ghost predicate Occurs(rows: seq<Row>, col: nat, v: string) {
    exists k :: 0 <= k < |rows| && col < |rows[k]| && rows[k][col] == v
  }

  /** The widest row that is not blank. */
  ghost predicate IsWidth(rows: seq<Row>, n: nat) {
    && (forall k :: 0 <= k < |rows| && !Blank(rows[k]) ==> |rows[k]| <= n)
    && exists k :: 0 <= k < |rows| && !Blank(rows[k]) && |rows[k]| == n
  }

  ghost predicate AllBlank(rows: seq<Row>) {
    forall k :: 0 <= k < |rows| ==> Blank(rows[k])
  }

  ghost predicate Clash(rows: seq<Row>) {
    exists col: nat :: Occurs(rows, col, "0") && Occurs(rows, col, "1")
  }

  /** The value written for a column without a clash: the one no row uses, or a dash when both are unused. */
  ghost function SafeCell(rows: seq<Row>, col: nat): string {
    if Occurs(rows, col, "0") then "1" else if Occurs(rows, col, "1") then "0" else "-"
  }

  method IsBlank(row: Row) returns (r: bool)
    ensures r <==> Blank(row)
  {
    for i := 0 to |row|
      invariant forall j :: 0 <= j < i ==> row[j] == ""
    {
      if row[i] != "" {
        return false;
      }
    }
    r := true;
  }

  method KeepNonBlank(rows: seq<Row>) returns (data: seq<Row>)
    ensures forall row :: row in data <==> row in rows && !Blank(row)
  {
    data := [];
    for k := 0 to |rows|
      invariant forall row :: row in data <==> row in rows[..k] && !Blank(row)
    {
      assert rows[..k + 1] == rows[..k] + [rows[k]];
      var blank := IsBlank(rows[k]);
      if !blank {
        data := data + [rows[k]];
      }
    }
    assert rows[..|rows|] == rows;
  }

  method ColumnValues(data: seq<Row>, col: nat) returns (values: set<string>)
    ensures values <= {"0", "1"}
    ensures forall v :: v in {"0", "1"} ==> (v in values <==> Occurs(data, col, v))
  {
    values := {};
    for k := 0 to |data|
      invariant values <= {"0", "1"}
      invariant forall v :: v in {"0", "1"} ==> (v in values <==> Occurs(data[..k], col, v))
    {
      ghost var before := values;
      if col < |data[k]| {
        var val := data[k][col];
        if val in {"0", "1"} {
          values := values + {val};
        }
      }
      forall v | v in {"0", "1"}
        ensures v in values <==> Occurs(data[..k + 1], col, v)
      {
        if v in values {
          if v in before {
            var j :| 0 <= j < k && col < |data[j]| && data[j][col] == v;
            assert data[..k + 1][j][col] == v;
          } else {
            assert data[..k + 1][k][col] == v;
          }
        }
        if Occurs(data[..k + 1], col, v) {
          var j :| 0 <= j < k + 1 && col < |data[j]| && data[j][col] == v;
          if j < k {
            assert data[..k][j][col] == v;
          }
        }
      }
    }
    assert data[..|data|] == data;
  }

  /** A blank row holds neither "0" nor "1", so dropping blank rows changes no column. */
  lemma BlankRowsDoNotMatter(rows: seq<Row>, data: seq<Row>, col: nat, v: string)
    requires forall row :: row in data <==> row in rows && !Blank(row)
    requires v != ""
    ensures Occurs(data, col, v) <==> Occurs(rows, col, v)
  {
    if k :| 0 <= k < |rows| && col < |rows[k]| && rows[k][col] == v {
      assert rows[k] in data;
      var j :| 0 <= j < |data| && data[j] == rows[k];
    }
    if k :| 0 <= k < |data| && col < |data[k]| && data[k][col] == v {
      assert data[k] in rows;
      var j :| 0 <= j < |rows| && rows[j] == data[k];
    }
  }

  lemma OnlyBlankRows(rows: seq<Row>, data: seq<Row>)
    requires forall row :: row in data <==> row in rows && !Blank(row)
    ensures data == [] <==> AllBlank(rows)
  {
    if data == [] {
      forall k | 0 <= k < |rows|
        ensures Blank(rows[k])
      {
        assert rows[k] in rows && rows[k] !in data;
      }
    } else {
      assert data[0] in data;
      var k :| 0 <= k < |rows| && rows[k] == data[0];
    }
  }

  /** The width of the widest row kept. */
  method Widest(rows: seq<Row>, data: seq<Row>) returns (numColumns: nat)
    requires data != [] && forall row :: row in data <==> row in rows && !Blank(row)
    ensures IsWidth(rows, numColumns)
    ensures forall j :: 0 <= j < |data| ==> |data[j]| <= numColumns
  {
    numColumns := |data[0]|;
    for k := 1 to |data|
      invariant forall j :: 0 <= j < k ==> |data[j]| <= numColumns
      invariant exists j :: 0 <= j < k && |data[j]| == numColumns
    {
      if |data[k]| > numColumns {
        numColumns := |data[k]|;
      }
    }
    var j :| 0 <= j < |data| && |data[j]| == numColumns;
    assert data[j] in rows;
    forall k | 0 <= k < |rows| && !Blank(rows[k])
      ensures |rows[k]| <= numColumns
    {
      assert rows[k] in data;
    }
  }

  /** The safe value of one column, or None if both values are used. */
  method SafeValue(rows: seq<Row>, data: seq<Row>, col: nat) returns (r: Option<string>)
    requires forall row :: row in data <==> row in rows && !Blank(row)
    ensures r == if Occurs(rows, col, "0") && Occurs(rows, col, "1") then None else Some(SafeCell(rows, col))
  {
    BlankRowsDoNotMatter(rows, data, col, "0");
    BlankRowsDoNotMatter(rows, data, col, "1");
    var values := ColumnValues(data, col);
    assert ("0" in values <==> Occurs(data, col, "0")) && ("1" in values <==> Occurs(data, col, "1"));
    if "1" !in values && "0" !in values {
      r := Some("-");
    } else if "1" !in values {
      r := Some("1");
    } else if "0" !in values {
      r := Some("0");
    } else {
      r := None;
    }
  }

  method ComputeSafeValues(rows: seq<Row>) returns (r: Option<Row>)
    ensures r == None <==> AllBlank(rows) || Clash(rows)
    ensures r.Some? ==> IsWidth(rows, |r.value|)
    ensures r.Some? ==> forall col :: 0 <= col < |r.value| ==>
      && (r.value[col] == "1" <==> Occurs(rows, col, "0"))
      && (r.value[col] == "0" <==> Occurs(rows, col, "1"))
      && (r.value[col] == "-" <==> !Occurs(rows, col, "0") && !Occurs(rows, col, "1"))
  {
    var data := KeepNonBlank(rows);
    OnlyBlankRows(rows, data);
    if data == [] {
      return None;
    }
    var numColumns := Widest(rows, data);
    var safe: Row := [];
    for col := 0 to numColumns
      invariant |safe| == col
      invariant forall c :: 0 <= c < col ==> safe[c] == SafeCell(rows, c)
      invariant forall c: nat :: c < col ==> !(Occurs(rows, c, "0") && Occurs(rows, c, "1"))
    {
      var value := SafeValue(rows, data, col);
      if value == None {
        return None;
      }
      safe := safe + [value.value];
    }
    forall c: nat | c >= numColumns
      ensures !Occurs(rows, c, "0")
    {
      BlankRowsDoNotMatter(rows, data, c, "0");
    }
    r := Some(safe);
  }

  /** Some choice of one binary value per column meets no row: the reason to look for safe values at all. */
  ghost predicate Avoidable(rows: seq<Row>) {
    exists t: nat -> string :: (forall col :: t(col) in {"0", "1"}) && AvoidedBy(rows, t)
  }

  ghost predicate AvoidedBy(rows: seq<Row>, t: nat -> string) {
    forall k, col: nat :: 0 <= k < |rows| && col < |rows[k]| ==> rows[k][col] != t(col)
  }

  /** Safe values are found exactly when they exist. */
  lemma ClashMeansUnavoidable(rows: seq<Row>)
    ensures Clash(rows) <==> !Avoidable(rows)
  {
    if col: nat :| Occurs(rows, col, "0") && Occurs(rows, col, "1") {
      var k0 :| 0 <= k0 < |rows| && col < |rows[k0]| && rows[k0][col] == "0";
      var k1 :| 0 <= k1 < |rows| && col < |rows[k1]| && rows[k1][col] == "1";
      forall t: nat -> string | AvoidedBy(rows, t)
        ensures t(col) !in {"0", "1"}
      {
        assert rows[k0][col] != t(col) && rows[k1][col] != t(col);
      }
    } else {
      var t: nat -> string := (col: nat) => if Occurs(rows, col, "0") then "1" else "0";
      assert AvoidedBy(rows, t) by {
        forall k, col: nat | 0 <= k < |rows| && col < |rows[k]|
          ensures rows[k][col] != t(col)
        {
          if rows[k][col] == "0" {
            assert Occurs(rows, col, "0");
          } else if rows[k][col] == "1" {
            assert Occurs(rows, col, "1");
          }
        }
      }
    }
  }

  /** How a row of the table is read as a combination: a dash is UNKNOWN, "0" and "1" are themselves. */
  ghost predicate Reads(row: Row, c: Comb) {
    && |row| == |c|
    && forall i :: 0 <= i < |row| ==>
      && (row[i] == "-" <==> c[i] == UNKNOWN)
      && (row[i] == "0" <==> c[i] == 0)
      && (row[i] == "1" <==> c[i] == 1)
  }

  ghost predicate Binary(t: Comb) {
    forall i :: 0 <= i < |t| ==> t[i] == 0 || t[i] == 1
  }

  /** A safe value meets no faulty combination; where it is UNKNOWN, neither 0 nor 1 does. */
  ghost predicate IsSafe(safe: Comb, mfs: seq<Comb>) {
    forall k, i :: 0 <= k < |mfs| && 0 <= i < |safe| && i < |mfs[k]| ==>
      if safe[i] == UNKNOWN then mfs[k][i] != 0 && mfs[k][i] != 1
      else (safe[i] == 0 || safe[i] == 1) && mfs[k][i] != safe[i]
  }

  lemma ComputedIsSafe(rows: seq<Row>, out: Row, mfs: seq<Comb>, safe: Comb)
    requires |mfs| == |rows| && forall k :: 0 <= k < |rows| ==> Reads(rows[k], mfs[k])
    requires forall col :: 0 <= col < |out| ==> out[col] == SafeCell(rows, col)
    requires Reads(out, safe) && !Clash(rows)
    ensures IsSafe(safe, mfs)
  {
    forall k, i | 0 <= k < |mfs| && 0 <= i < |safe| && i < |mfs[k]|
      ensures if safe[i] == UNKNOWN then mfs[k][i] != 0 && mfs[k][i] != 1
              else (safe[i] == 0 || safe[i] == 1) && mfs[k][i] != safe[i]
    {
      assert Reads(rows[k], mfs[k]) && out[i] == SafeCell(rows, i);
      if mfs[k][i] == 0 {
        assert Occurs(rows, i, "0");
      }
      if mfs[k][i] == 1 {
        assert Occurs(rows, i, "1");
      }
    }
  }

  /** t fills the free parameters of comb with safe values, or with any bit where there is no safe value. */
  ghost predicate IsPadding(t: Comb, comb: Comb, safe: Comb) {
    && |t| == |comb| == |safe|
    && forall i :: 0 <= i < |t| ==>
      if comb[i] != UNKNOWN then t[i] == comb[i]
      else if safe[i] != UNKNOWN then t[i] == safe[i]
      else t[i] == 0 || t[i] == 1
  }

  ghost predicate IsFaulty(mfs: seq<Comb>, c: Comb) {
    exists k :: 0 <= k < |mfs| && Covers(c, mfs[k])
  }

  /** Padding neither adds nor hides a fault: the padded test is faulty exactly when the combination was. */
  lemma PaddingIsExact(t: Comb, comb: Comb, safe: Comb, mfs: seq<Comb>)
    requires IsPadding(t, comb, safe) && IsSafe(safe, mfs)
    ensures IsFaulty(mfs, t) <==> IsFaulty(mfs, comb)
  {
    forall k | 0 <= k < |mfs|
      ensures Covers(t, mfs[k]) <==> Covers(comb, mfs[k])
    {
      if Covers(t, mfs[k]) {
        forall i | 0 <= i < |comb|
          ensures mfs[k][i] == UNKNOWN || mfs[k][i] == comb[i]
        {
          assert mfs[k][i] == UNKNOWN || mfs[k][i] == t[i];
        }
      }
    }
  }

  lemma {:induction false} FaultyIsMonotone(mfs: seq<Comb>, a: Comb, b: Comb)
    requires Covers(a, b) && IsFaulty(mfs, b)
    ensures IsFaulty(mfs, a)
  {
    var k :| 0 <= k < |mfs| && Covers(b, mfs[k]);
    CoversTransitive(a, b, mfs[k]);
  }

  /** Padding with a random bit where there is no safe value. */
  method PadAtRandom(comb: Comb, safe: Comb) returns (r: Result<Comb>)
    requires |safe| >= |comb|
    requires forall i :: 0 <= i < |comb| ==> comb[i] >= UNKNOWN && safe[i] >= UNKNOWN
    ensures r.Ok? && IsPadding(r.value, comb, safe[..|comb|])
  {
    var elements := comb;
    for i := 0 to |elements|
      invariant |elements| == |comb|
      invariant IsPadding(elements[..i], comb[..i], safe[..i])
      invariant elements[i..] == comb[i..]
      invariant forall j :: 0 <= j < |elements| ==> elements[j] >= UNKNOWN
    {
      assert elements[i] == comb[i];
      if elements[i] == UNKNOWN {
        if safe[i] == UNKNOWN {
          var bit: int :| 0 <= bit < 2;
          elements := elements[i := bit];
        } else {
          elements := elements[i := safe[i]];
        }
      }
    }
    assert elements[..|elements|] == elements && comb[..|comb|] == comb;
    r := FromList(elements);
  }

  ghost function PadOpposite(comb: Comb, safe: Comb, tfail: Comb): Comb
    requires |safe| >= |comb| && |tfail| >= |comb|
  {
    seq(|comb|, i requires 0 <= i < |comb| =>
      if comb[i] != UNKNOWN then comb[i]
      else if safe[i] != UNKNOWN then safe[i]
      else 1 - tfail[i])
  }

  /** Padding with the value the failing test does not have where there is no safe value. */
  method PadAgainst(comb: Comb, safe: Comb, tfail: Comb) returns (r: Result<Comb>)
    requires |safe| >= |comb| && |tfail| >= |comb|
    ensures var padded := PadOpposite(comb, safe, tfail);
            r == if forall i :: 0 <= i < |padded| ==> padded[i] >= UNKNOWN then Ok(padded) else Err
  {
    var elements := comb;
    for i := 0 to |elements|
      invariant |elements| == |comb|
      invariant forall j :: 0 <= j < i ==> elements[j] == PadOpposite(comb, safe, tfail)[j]
      invariant elements[i..] == comb[i..]
    {
      assert elements[i] == comb[i];
      if elements[i] == UNKNOWN {
        if safe[i] == UNKNOWN {
          elements := elements[i := 1 - tfail[i]];
        } else {
          elements := elements[i := safe[i]];
        }
      }
    }
    assert elements == PadOpposite(comb, safe, tfail);
    r := FromList(elements);
  }

  /** Against a two-valued test, the deterministic overload is a padding too. */
  lemma OppositeIsPadding(comb: Comb, safe: Comb, tfail: Comb)
    requires |comb| == |safe| == |tfail| && Binary(tfail)
    ensures IsPadding(PadOpposite(comb, safe, tfail), comb, safe)
  {
  }
}
