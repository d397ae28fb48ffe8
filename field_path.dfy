/**
 * The `accountField` dot-path language of the tenant-scope behaviour
 * (TenantScopeBehavior::parseAccountField). A bare column names a column of
 * the current table; `A.B.col` names column `col` of table `B`, reached from
 * the current table through the association path `A.B`.
 */
module FieldPath {
  import opened Wrappers
  import opened Values

  /** Parsed `accountField`: the column, the table that holds it, the association path (null for none). */
  datatype FieldRef = FieldRef(column: string, table: string, associations: Option<string>)

  /**
   * PHP `implode('.', parts)`: the segments in order with a dot between
   * neighbours. Dot-free segments give a dot exactly when there are two or more.
   */
  function Join(parts: seq<string>): (s: string)
    ensures |parts| >= 1 ==> parts[0] <= s
    ensures |parts| >= 2 ==> |parts[0]| < |s| && s[|parts[0]|] == '.'
    ensures (forall i :: 0 <= i < |parts| ==> '.' !in parts[i]) ==> ('.' in s <==> |parts| >= 2)
  {
    if |parts| == 0 then ""
    else if |parts| == 1 then parts[0]
    else parts[0] + "." + Join(parts[1..])
  }

  /** Position of the first `.` in `s`. */
  function FirstDot(s: string): (i: nat)
    requires '.' in s
    ensures i < |s| && s[i] == '.'
    ensures '.' !in s[..i]
  {
    if s[0] == '.' then 0
    else
      var i := 1 + FirstDot(s[1..]);
      assert s[..i] == [s[0]] + s[1..][..i - 1];
      i
  }

  /** PHP `explode('.', s)`: the dot-free segments whose `implode` is `s`. */
  function Split(s: string): (parts: seq<string>)
    ensures |parts| >= 1
    ensures forall i :: 0 <= i < |parts| ==> '.' !in parts[i]
    ensures Join(parts) == s
    decreases |s|
  {
    if '.' !in s then [s]
    else
      var i := FirstDot(s);
      var rest := Split(s[i + 1..]);
      assert s == s[..i] + "." + s[i + 1..];
      assert ([s[..i]] + rest)[1..] == rest;
      [s[..i]] + rest
  }

  /** `seg` is the last dot-separated segment of `path`. */
  predicate LastSegment(path: string, seg: string)
  {
    && '.' !in seg
    && |seg| <= |path|
    && path[|path| - |seg|..] == seg
    && (|seg| == |path| || path[|path| - |seg| - 1] == '.')
  }

  /**
   * TenantScopeBehavior::parseAccountField, with the current table's alias
   * passed in. The result is the column after the last dot, the segment
   * before it as the table, and everything before the last dot as the path.
   */
  function ParseAccountField(field: string, alias: string): (r: FieldRef)
    ensures '.' !in field ==> r == FieldRef(field, alias, None)
    ensures '.' in field ==>
      && r.associations.Some?
      && r.associations.value + "." + r.column == field
      && '.' !in r.column
      && LastSegment(r.associations.value, r.table)
  {
    if '.' !in field then FieldRef(field, alias, None)
    else
      var parts := Split(field);
      var n := |parts|;
      var tables := parts[..n - 1];
      JoinSnoc(parts);
      JoinLastSegment(tables);
      FieldRef(parts[n - 1], tables[n - 2], Some(Join(tables)))
  }

  /** Path that needs no association: none, or one PHP's `empty()` rejects. */
  predicate Direct(r: FieldRef)
  {
    r.associations.None? || EmptyString(r.associations.value)
  }

  /** A path through exactly one association. */
  predicate OneLevel(r: FieldRef)
  {
    !Direct(r) && '.' !in r.associations.value
  }

  /** Splitting off the last segment: `implode` of all but the last, a dot, then the last. */
  lemma {:induction false} JoinSnoc(parts: seq<string>)
    requires |parts| >= 2
    ensures Join(parts) == Join(parts[..|parts| - 1]) + "." + parts[|parts| - 1]
    decreases |parts|
  {
    var n := |parts|;
    if n > 2 {
      JoinSnoc(parts[1..]);
      assert parts[1..][..n - 2] == parts[..n - 1][1..];
      assert parts[1..][n - 2] == parts[n - 1];
    }
  }

  /** The last of non-empty dot-free segments is the last segment of their `implode`. */
  lemma {:induction false} JoinLastSegment(parts: seq<string>)
    requires |parts| >= 1
    requires forall i :: 0 <= i < |parts| ==> '.' !in parts[i]
    ensures LastSegment(Join(parts), parts[|parts| - 1])
    decreases |parts|
  {
    var n := |parts|;
    if n >= 2 {
      JoinSnoc(parts);
      var front := Join(parts[..n - 1]);
      var last := parts[n - 1];
      assert Join(parts) == front + "." + last;
      assert (front + "." + last)[|front| + 1..] == last;
    }
  }

  /** `explode` undoes `implode` on dot-free segments: the two are inverse. */
  lemma {:induction false} SplitJoin(parts: seq<string>)
    requires |parts| >= 1
    requires forall i :: 0 <= i < |parts| ==> '.' !in parts[i]
    ensures Split(Join(parts)) == parts
    decreases |parts|
  {
    if |parts| >= 2 {
      var s := Join(parts);
      var head := parts[0];
      var tail := Join(parts[1..]);
      assert s == head + "." + tail;
      assert s[|head|] == '.';
      assert s[..|head|] == head;
      FirstDotAfter(head, tail);
      assert s[|head| + 1..] == tail;
      SplitJoin(parts[1..]);
      assert parts == [head] + parts[1..];
    }
  }

  /** The first dot of `a + "." + b` with `a` dot-free is the one after `a`. */
  lemma FirstDotAfter(a: string, b: string)
    requires '.' !in a
    ensures '.' in a + "." + b && FirstDot(a + "." + b) == |a|
  {
    var s := a + "." + b;
    assert s[|a|] == '.';
  }

  /** Cutting at the last dot is unique: a dot-free suffix after a dot is determined. */
  lemma CutAtLastDot(a: string, c: string, a': string, c': string)
    requires '.' !in c && '.' !in c'
    requires a + "." + c == a' + "." + c'
    ensures a == a' && c == c'
  {
    var s := a + "." + c;
    if |c| < |c'| {
      CharAfterDot(a', c', |c'| - |c| - 1);
      assert false;
    } else if |c'| < |c| {
      CharAfterDot(a, c, |c| - |c'| - 1);
      assert false;
    }
    assert c == s[|s| - |c|..] == c';
    assert a == s[..|a|] == a';
  }

  /** Characters after the dot of `a + "." + c` are those of `c`. */
  lemma CharAfterDot(a: string, c: string, k: int)
    ensures 0 <= k < |c| ==> (a + "." + c)[|a| + 1 + k] == c[k]
  {
  }

  /** The last segment of a path is unique. */
  lemma LastSegmentUnique(path: string, t: string, t': string)
    requires LastSegment(path, t) && LastSegment(path, t')
    ensures t == t'
  {
  }

  /**
   * The dotted parse is the only decomposition with its properties: a
   * dot-free column after the last dot, and the path's last segment as table.
   */
  lemma ParseUnique(field: string, alias: string, column: string, table: string, path: string)
    requires '.' !in column
    requires path + "." + column == field
    requires LastSegment(path, table)
    ensures ParseAccountField(field, alias) == FieldRef(column, table, Some(path))
  {
    assert field[|path|] == '.';
    var r := ParseAccountField(field, alias);
    CutAtLastDot(r.associations.value, r.column, path, column);
    LastSegmentUnique(path, r.table, table);
  }

  /**
   * A path is one association deep exactly when the field has two segments
   * and the first is not PHP-empty; its table is then that association.
   */
  lemma OneLevelShape(field: string, alias: string)
    ensures OneLevel(ParseAccountField(field, alias)) <==>
      |Split(field)| == 2 && !EmptyString(Split(field)[0])
    ensures OneLevel(ParseAccountField(field, alias)) ==>
      ParseAccountField(field, alias).table == Split(field)[0] == ParseAccountField(field, alias).associations.value
  {
  }

  /** The bare-column example of the behaviour's own documentation table. */
  lemma BareColumnExample(alias: string)
    ensures ParseAccountField("account_id", alias) == FieldRef("account_id", alias, None)
  {
    assert forall k :: 0 <= k < |"account_id"| ==> "account_id"[k] != '.';
  }

  /** The dotted example of the behaviour's own documentation table. */
  lemma DottedExample(alias: string)
    ensures ParseAccountField("SomeTable.OtherTable.column", alias) ==
      FieldRef("column", "OtherTable", Some("SomeTable.OtherTable"))
  {
    var path, table, column := "SomeTable.OtherTable", "OtherTable", "column";
    assert forall k :: 0 <= k < |column| ==> column[k] != '.';
    assert forall k :: 0 <= k < |table| ==> table[k] != '.';
    assert path[|path| - |table|..] == table;
    assert path + "." + column == "SomeTable.OtherTable.column";
    ParseUnique("SomeTable.OtherTable.column", alias, column, table, path);
  }
}
