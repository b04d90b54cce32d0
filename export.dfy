/** `export_high_high_by_condition`: for each condition of the merged table, in
    group order, the rows in the high/high quadrant are written to a CSV file whose
    name is derived from the condition by a character filter. The file writes are
    modelled as the returned list of exports: file name, condition and rows. */
module Export {
  import opened Wrappers
  import opened Strings
  import opened Collections
  import opened Tables

  // ---------------------------------------------------------------------------
  // file names

  /** The characters the sanitiser keeps: `c.isalnum() or c in (" ", "_", "-")`. */
  predicate Allowed(c: char) {
    IsAlnum(c) || c == ' ' || c == '_' || c == '-'
  }

  /** The characters of a sanitised name. */
  predicate SafeChar(c: char) {
    IsAlnum(c) || c == '_' || c == '-'
  }

  /** The sanitiser: keep the allowed characters, strip trailing whitespace,
      then turn each remaining space into `_`. */
  function SafeName(cond: string): string {
    ReplaceChar(TrimEnd(Filter(cond, Allowed)), ' ', '_')
  }

  /** A sanitised name holds only letters, digits, `_` and `-`. */
  lemma SafeNameChars(cond: string)
    ensures forall c :: c in SafeName(cond) ==> SafeChar(c)
  {
    var kept := Filter(cond, Allowed);
    var trimmed := TrimEnd(kept);
    var r := SafeName(cond);
    forall i | 0 <= i < |r| ensures SafeChar(r[i]) {
      assert trimmed[i] == kept[i] && kept[i] in kept;
    }
  }

  /** A name made only of safe characters is its own sanitised form. */
  lemma SafeNameOfSafe(s: string)
    requires forall c :: c in s ==> SafeChar(c)
    ensures SafeName(s) == s
  {
    FilterAll(s, Allowed);
    if s != [] {
      SafeNotSpace(s[|s| - 1]);
    }
    TrimEndKeeps(s);
    assert ' ' !in s by {
      forall c | c in s ensures c != ' ' {
        SafeNotSpace(c);
      }
    }
    ReplaceAbsent(s, ' ', '_');
  }

  lemma SafeNotSpace(c: char)
    requires SafeChar(c)
    ensures !IsSpace(c) && c != ' '
  {
  }

  /** Sanitising twice changes nothing more. */
  lemma SafeNameIdempotent(cond: string)
    ensures SafeName(SafeName(cond)) == SafeName(cond)
  {
    SafeNameChars(cond);
    SafeNameOfSafe(SafeName(cond));
  }

  /** Different conditions can share a file name: `a b` and `a_b` both become
      `a_b` (for instance `A B` and `A_B`), so the later group's file replaces the
      earlier one's while both names are returned. */
  lemma SafeNameCollision(a: string, b: string)
    requires b != [] && forall c :: c in a + b ==> SafeChar(c)
    ensures SafeName(a + " " + b) == SafeName(a + "_" + b) == a + "_" + b
  {
    var s, t := a + " " + b, a + "_" + b;
    JoinedChars(a, b, ' ');
    JoinedChars(a, b, '_');
    FilterAll(s, Allowed);
    assert s[|s| - 1] == b[|b| - 1] && b[|b| - 1] in a + b;
    SafeNotSpace(b[|b| - 1]);
    TrimEndKeeps(s);
    ReplaceBetween(a, b);
    SafeNameOfSafe(t);
  }

  /** The characters of `a + [m] + b` are those of `a + b` and `m`, and those of
      `a + b` are safe. */
  lemma JoinedChars(a: string, b: string, m: char)
    requires forall c :: c in a + b ==> SafeChar(c)
    requires m == ' ' || m == '_'
    ensures forall c :: c in a + [m] + b ==> Allowed(c) && (m == '_' ==> SafeChar(c))
  {
    forall c | c in a + [m] + b ensures c == m || c in a + b {
      assert c == m || c in a || c in b;
    }
  }

  lemma ReplaceBetween(a: string, b: string)
    requires forall c :: c in a + b ==> SafeChar(c)
    ensures ReplaceChar(a + " " + b, ' ', '_') == a + "_" + b
  {
    var s, t := a + " " + b, a + "_" + b;
    var r := ReplaceChar(s, ' ', '_');
    forall i | 0 <= i < |s| ensures r[i] == t[i] {
      if i < |a| {
        assert s[i] == a[i] == t[i] && a[i] in a + b;
        SafeNotSpace(a[i]);
      } else if i > |a| {
        assert s[i] == b[i - |a| - 1] == t[i] && b[i - |a| - 1] in a + b;
        SafeNotSpace(b[i - |a| - 1]);
      }
    }
  }

  /** `os.path.join(dir, name)`: `name` alone when it is absolute, otherwise `name`
      after `dir`, with a `/` between them unless `dir` is empty or ends in one. */
  function JoinPath(dir: string, name: string): (p: string)
    ensures name != [] && name[0] == '/' ==> p == name
    ensures (name == [] || name[0] != '/') && (dir == [] || dir[|dir| - 1] == '/') ==> p == dir + name
    ensures (name == [] || name[0] != '/') && dir != [] && dir[|dir| - 1] != '/' ==> p == dir + "/" + name
  {
    if name != [] && name[0] == '/' then name
    else if dir == [] || dir[|dir| - 1] == '/' then dir + name
    else dir + "/" + name
  }

  /** The file of one condition: `<dir>/high_high_<sanitised condition>.csv`. */
  function ExportFileName(dir: string, cond: string): string {
    JoinPath(dir, "high_high_" + SafeName(cond) + ".csv")
  }

  /** The file lies in `dir` and its name is the sanitised condition between
      `high_high_` and `.csv`. */
  lemma ExportFileNameShape(dir: string, cond: string)
    ensures var name := "high_high_" + SafeName(cond) + ".csv";
      (ExportFileName(dir, cond) == dir + name || ExportFileName(dir, cond) == dir + "/" + name) &&
      forall c :: c in SafeName(cond) ==> SafeChar(c)
  {
    SafeNameChars(cond);
  }

  // ---------------------------------------------------------------------------
  // the exports

  /** One written file: its name, the condition and the rows written. */
  datatype Written = Written(file: string, condition: string, rows: seq<Joined>)

  /** `whitelist is None or cond in whitelist`: an empty whitelist admits nothing. */
  predicate Listed(whitelist: Option<seq<string>>, c: string) {
    whitelist.None? || c in whitelist.value
  }

  /** What the loop writes for the group of condition `c`: nothing when the
      whitelist excludes it or none of its rows is in the quadrant. */
  function ExportOf(rows: seq<Joined>, x: real, y: real, dir: string, whitelist: Option<seq<string>>, c: string): (ws: seq<Written>)
    ensures |ws| <= 1
  {
    if !Listed(whitelist, c) then []
    else
      var subset := HighHighRows(Group(rows, c), x, y);
      if subset == [] then [] else [Written(ExportFileName(dir, c), c, subset)]
  }

  /** The loop body as a function of the condition. */
  function Exporter(rows: seq<Joined>, x: real, y: real, dir: string, whitelist: Option<seq<string>>): string -> seq<Written> {
    c => ExportOf(rows, x, y, dir, whitelist, c)
  }

  /** The writes of the groups `conds`, in order, for the loop body `f`. */
  function ExportsOver(conds: seq<string>, f: string -> seq<Written>): seq<Written> {
    if conds == [] then [] else ExportsOver(conds[..|conds| - 1], f) + f(conds[|conds| - 1])
  }

  /** What the export writes: one entry per group, in group order. */
  function Exports(rows: seq<Joined>, x: real, y: real, dir: string, whitelist: Option<seq<string>>): seq<Written> {
    ExportsOver(Conditions(rows), Exporter(rows, x, y, dir, whitelist))
  }

  function Files(ws: seq<Written>): (fs: seq<string>)
    ensures |fs| == |ws| && forall i :: 0 <= i < |ws| ==> fs[i] == ws[i].file
  {
    seq(|ws|, i requires 0 <= i < |ws| => ws[i].file)
  }

  /** `export_high_high_by_condition`: walks the groups in order, skipping those the
      whitelist excludes and those without a high/high row, and returns the names of
      the files written, together with what was written. */
  method ExportHighHigh(m: Merged, x: real, y: real, dir: string, whitelist: Option<seq<string>>)
    returns (files: seq<string>, written: seq<Written>)
    requires HasValues(m.rows)
    ensures written == Exports(m.rows, x, y, dir, whitelist)
    ensures files == Files(written)
  {
    var groups := Conditions(m.rows);
    ghost var f := Exporter(m.rows, x, y, dir, whitelist);
    files := [];
    written := [];
    for k := 0 to |groups|
      invariant written == ExportsOver(groups[..k], f)
      invariant files == Files(written)
    {
      var cond := groups[k];
      ExportStep(m.rows, x, y, dir, whitelist, groups, k);
      if whitelist.Some? && cond !in whitelist.value {
        continue;
      }
      var group := Group(m.rows, cond);
      var subset := HighHighRows(group, x, y);
      if subset == [] {
        continue;
      }
      var filename := ExportFileName(dir, cond);
      FilesSnoc(written, Written(filename, cond, subset));
      written := written + [Written(filename, cond, subset)];
      files := files + [filename];
    }
    assert groups[..|groups|] == groups;
  }

  lemma FilesSnoc(ws: seq<Written>, w: Written)
    ensures Files(ws + [w]) == Files(ws) + [w.file]
  {
  }

  lemma ExportStep(rows: seq<Joined>, x: real, y: real, dir: string, whitelist: Option<seq<string>>, groups: seq<string>, k: nat)
    requires k < |groups|
    ensures var f := Exporter(rows, x, y, dir, whitelist);
      ExportsOver(groups[..k + 1], f) == ExportsOver(groups[..k], f) + ExportOf(rows, x, y, dir, whitelist, groups[k])
  {
    assert groups[..k + 1][..k] == groups[..k];
  }

  // ---------------------------------------------------------------------------
  // what is written

  /** The rows of a condition's group in the quadrant. */
  lemma GroupQuadrant(rows: seq<Joined>, x: real, y: real, c: string)
    ensures forall j :: j in HighHighRows(Group(rows, c), x, y) <==> j in rows && j.daly.condition == c && HighHigh(j, x, y)
  {
  }

  /** Each write of the loop body for `c` is of `c`, to the condition's file, and
      holds every row of `c` in the quadrant as often as the table does. */
  lemma ExportOfWrites(rows: seq<Joined>, x: real, y: real, dir: string, whitelist: Option<seq<string>>, c: string)
    ensures forall w :: w in ExportOf(rows, x, y, dir, whitelist, c) ==>
      w.file == ExportFileName(dir, c) && w.condition == c &&
      (forall j: Joined :: multiset(w.rows)[j] == if j.daly.condition == c && HighHigh(j, x, y) then multiset(rows)[j] else 0)
  {
    var ws := ExportOf(rows, x, y, dir, whitelist, c);
    if ws != [] {
      assert ws == [Written(ExportFileName(dir, c), c, HighHighRows(Group(rows, c), x, y))];
      GroupQuadrantCount(rows, x, y, c);
    }
  }

  /** The group's rows in the quadrant, counted. */
  lemma GroupQuadrantCount(rows: seq<Joined>, x: real, y: real, c: string)
    ensures forall j: Joined :: multiset(HighHighRows(Group(rows, c), x, y))[j] == if j.daly.condition == c && HighHigh(j, x, y) then multiset(rows)[j] else 0
  {
    var g := Group(rows, c);
    assert forall j: Joined :: multiset(g)[j] == if j.daly.condition == c then multiset(rows)[j] else 0;
    assert forall j: Joined :: multiset(HighHighRows(g, x, y))[j] == if HighHigh(j, x, y) then multiset(g)[j] else 0;
  }

  /** The loop body writes for `c` exactly when the whitelist admits `c` and one of
      its rows is in the quadrant. */
  lemma ExportOfWhen(rows: seq<Joined>, x: real, y: real, dir: string, whitelist: Option<seq<string>>, c: string)
    ensures ExportOf(rows, x, y, dir, whitelist, c) != [] <==>
      Listed(whitelist, c) && exists j :: j in rows && j.daly.condition == c && HighHigh(j, x, y)
  {
    var subset := HighHighRows(Group(rows, c), x, y);
    GroupQuadrant(rows, x, y, c);
    if subset != [] {
      assert subset[0] in subset;
    }
  }

  /** The body of the fold. */
  ghost predicate OneCondition(f: string -> seq<Written>) {
    forall c :: |f(c)| <= 1 && forall w :: w in f(c) ==> w.condition == c
  }

  lemma {:induction false} ExportsOverMembers(conds: seq<string>, f: string -> seq<Written>)
    requires OneCondition(f)
    ensures forall w :: w in ExportsOver(conds, f) ==> w.condition in conds && w in f(w.condition)
  {
    if conds != [] {
      ExportsOverMembers(conds[..|conds| - 1], f);
    }
  }

  lemma {:induction false} ExportsOverHas(conds: seq<string>, f: string -> seq<Written>, c: string)
    requires OneCondition(f) && c in conds && f(c) != []
    ensures exists w :: w in ExportsOver(conds, f) && w.condition == c
  {
    var init := conds[..|conds| - 1];
    if conds[|conds| - 1] == c {
      assert f(c)[0] in f(c);
      assert f(c)[0] in ExportsOver(conds, f);
    } else {
      assert c in init by {
        var i :| 0 <= i < |conds| && conds[i] == c;
        assert init[i] == c;
      }
      ExportsOverHas(init, f, c);
    }
  }

  /** The conditions of the writes strictly ascend. */
  predicate Ascending(ws: seq<Written>) {
    forall i, j :: 0 <= i < j < |ws| ==> StrLt(ws[i].condition, ws[j].condition)
  }

  lemma {:induction false} ExportsOverSorted(conds: seq<string>, f: string -> seq<Written>)
    requires OneCondition(f) && StrSorted(conds)
    ensures Ascending(ExportsOver(conds, f))
  {
    if conds != [] {
      var init := conds[..|conds| - 1];
      var last := conds[|conds| - 1];
      assert StrSorted(init);
      ExportsOverSorted(init, f);
      ExportsOverMembers(init, f);
      var ws := ExportsOver(init, f);
      assert forall w :: w in ws ==> StrLt(w.condition, last) by {
        forall w | w in ws ensures StrLt(w.condition, last) {
          var i :| 0 <= i < |init| && init[i] == w.condition;
          assert conds[i] == w.condition;
        }
      }
      var tail := f(last);
      var all := ws + tail;
      assert all == ExportsOver(conds, f);
      assert |tail| <= 1 && forall w :: w in tail ==> w.condition == last;
      forall i, j | 0 <= i < j < |all| ensures StrLt(all[i].condition, all[j].condition) {
        if j < |ws| {
          assert all[i] == ws[i] && all[j] == ws[j];
        } else {
          assert i < |ws|;
          assert all[i] == ws[i] && ws[i] in ws;
          assert all[j] == tail[j - |ws|] && tail[j - |ws|] in tail;
        }
      }
    }
  }

  lemma {:induction false} ExportsOverNothing(conds: seq<string>, f: string -> seq<Written>)
    requires forall c :: f(c) == []
    ensures ExportsOver(conds, f) == []
  {
    if conds != [] {
      ExportsOverNothing(conds[..|conds| - 1], f);
    }
  }

  lemma ExporterOneCondition(rows: seq<Joined>, x: real, y: real, dir: string, whitelist: Option<seq<string>>)
    ensures OneCondition(Exporter(rows, x, y, dir, whitelist))
  {
    forall c ensures forall w :: w in ExportOf(rows, x, y, dir, whitelist, c) ==> w.condition == c {
      ExportOfWrites(rows, x, y, dir, whitelist, c);
    }
  }

  /** A file is written for a condition exactly when the whitelist admits it and one
      of its rows has `Value_prev > x` and `Value_daly > y`; what is written is every
      such row of the condition, to the condition's file. */
  lemma ExportsSpec(rows: seq<Joined>, x: real, y: real, dir: string, whitelist: Option<seq<string>>, c: string)
    ensures (exists w :: w in Exports(rows, x, y, dir, whitelist) && w.condition == c) <==>
      Listed(whitelist, c) && exists j :: j in rows && j.daly.condition == c && HighHigh(j, x, y)
    ensures forall w :: w in Exports(rows, x, y, dir, whitelist) ==>
      w.file == ExportFileName(dir, w.condition) &&
      (forall j :: j in w.rows <==> j in rows && j.daly.condition == w.condition && HighHigh(j, x, y)) &&
      forall j: Joined :: multiset(w.rows)[j] == if j.daly.condition == w.condition && HighHigh(j, x, y) then multiset(rows)[j] else 0
  {
    ExportsWhen(rows, x, y, dir, whitelist, c);
    ExportsWritten(rows, x, y, dir, whitelist);
  }

  /** A condition has a file exactly when it is listed and has a row in the quadrant. */
  lemma ExportsWhen(rows: seq<Joined>, x: real, y: real, dir: string, whitelist: Option<seq<string>>, c: string)
    ensures (exists w :: w in Exports(rows, x, y, dir, whitelist) && w.condition == c) <==>
      Listed(whitelist, c) && exists j :: j in rows && j.daly.condition == c && HighHigh(j, x, y)
  {
    var conds := Conditions(rows);
    var f := Exporter(rows, x, y, dir, whitelist);
    ExporterOneCondition(rows, x, y, dir, whitelist);
    ExportsOverMembers(conds, f);
    ExportOfWhen(rows, x, y, dir, whitelist, c);
    if Listed(whitelist, c) && exists j :: j in rows && j.daly.condition == c && HighHigh(j, x, y) {
      var j :| j in rows && j.daly.condition == c && HighHigh(j, x, y);
      var i :| 0 <= i < |rows| && rows[i] == j;
      assert c in conds;
      ExportsOverHas(conds, f, c);
    }
  }

  /** Each write holds its condition's rows in the quadrant, to that condition's file. */
  lemma ExportsWritten(rows: seq<Joined>, x: real, y: real, dir: string, whitelist: Option<seq<string>>)
    ensures forall w :: w in Exports(rows, x, y, dir, whitelist) ==>
      w.file == ExportFileName(dir, w.condition) &&
      (forall j :: j in w.rows <==> j in rows && j.daly.condition == w.condition && HighHigh(j, x, y)) &&
      forall j: Joined :: multiset(w.rows)[j] == if j.daly.condition == w.condition && HighHigh(j, x, y) then multiset(rows)[j] else 0
  {
    var f := Exporter(rows, x, y, dir, whitelist);
    ExporterOneCondition(rows, x, y, dir, whitelist);
    ExportsOverMembers(Conditions(rows), f);
    forall w | w in Exports(rows, x, y, dir, whitelist)
      ensures w.file == ExportFileName(dir, w.condition)
      ensures forall j: Joined :: multiset(w.rows)[j] == if j.daly.condition == w.condition && HighHigh(j, x, y) then multiset(rows)[j] else 0
    {
      ExportOfWrites(rows, x, y, dir, whitelist, w.condition);
    }
  }

  /** The files come in group order: conditions strictly ascending, so no condition
      is exported twice. */
  lemma ExportsOrdered(rows: seq<Joined>, x: real, y: real, dir: string, whitelist: Option<seq<string>>)
    ensures Ascending(Exports(rows, x, y, dir, whitelist))
  {
    ExporterOneCondition(rows, x, y, dir, whitelist);
    ExportsOverSorted(Conditions(rows), Exporter(rows, x, y, dir, whitelist));
  }

  /** An empty whitelist exports nothing. */
  lemma EmptyWhitelist(rows: seq<Joined>, x: real, y: real, dir: string)
    ensures Exports(rows, x, y, dir, Some([])) == []
  {
    var f := Exporter(rows, x, y, dir, Some([]));
    assert forall c :: f(c) == [];
    ExportsOverNothing(Conditions(rows), f);
  }
}
