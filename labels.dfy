/**
 * node_label, the Graphviz record label of a page-table node. A PT or PD
 * label compresses every run of present entries into its first entry and
 * one "..."; a PDPT or PML4 label lists every present entry; a leaf page is
 * named after its size and address. The text of a label is modelled as a
 * sequence of pieces: the " | " separator, a field `<f{index}> {address}`
 * (its hex formatting left abstract), the "..." field, and a page name.
 */
module Labels {
  import opened Addresses
  import opened PageTables

  datatype Piece =
    | Separator                          // " | "
    | Field(index: nat, address: nat)    // "<f{index}> {address:#x}"
    | Ellipsis                           // "..."
    | PageName(size: nat, address: nat)  // "Page4K_…", "Page2MiB_…", "Page1GiB_…"

  /** The nodes of the Graphviz picture (the slot part of a table node only feeds node_id). */
  datatype Node =
    | HugePage(address: nat)
    | LargePage(address: nat)
    | Page(address: nat)
    | PT(table: Table)
    | PD(table: Table)
    | PDPT(table: Table)
    | PML4(table: Table)

  /** The three states of the PT/PD printer. */
  datatype Printer = EmitLine | EmitDots | Skip

  const LAST: nat := ENTRIES - 1

  /** Fields joined by separators, the way `+= " | "` before every field but the first builds them. */
  function Join(fields: seq<Piece>): (text: seq<Piece>)
    ensures |text| == if |fields| == 0 then 0 else 2 * |fields| - 1
  {
    if |fields| <= 1 then fields
    else Join(fields[..|fields| - 1]) + [Separator, fields[|fields| - 1]]
  }

  /** The last field added to a nonempty text is preceded by exactly one separator. */
  lemma JoinAppend(fields: seq<Piece>, f: Piece)
    ensures Join(fields + [f]) == (if |fields| == 0 then [] else Join(fields) + [Separator]) + [f]
  {
    assert (fields + [f])[..|fields|] == fields;
  }

  /** In a joined text the fields sit at the even positions and the separators between them. */
  lemma JoinShape(fields: seq<Piece>)
    ensures forall k :: 0 <= k < |fields| ==> Join(fields)[2 * k] == fields[k]
    ensures forall k :: 0 <= k < |fields| - 1 ==> Join(fields)[2 * k + 1] == Separator
  {
    forall k | 0 <= k < |fields|
      ensures Join(fields)[2 * k] == fields[k]
    {
      JoinFieldAt(fields, k);
    }
    forall k | 0 <= k < |fields| - 1
      ensures Join(fields)[2 * k + 1] == Separator
    {
      JoinSeparatorAt(fields, k);
    }
  }

  /** Field k of a joined text is at position 2k. */
  lemma {:induction false} JoinFieldAt(fields: seq<Piece>, k: nat)
    requires k < |fields|
    ensures Join(fields)[2 * k] == fields[k]
    decreases |fields|
  {
    if |fields| > 1 {
      var init := fields[..|fields| - 1];
      assert Join(fields) == Join(init) + [Separator, fields[|fields| - 1]];
      if k < |init| {
        JoinFieldAt(init, k);
        assert Join(fields)[2 * k] == Join(init)[2 * k];
      }
    }
  }

  /** The separator after field k of a joined text is at position 2k + 1. */
  lemma {:induction false} JoinSeparatorAt(fields: seq<Piece>, k: nat)
    requires k + 1 < |fields|
    ensures Join(fields)[2 * k + 1] == Separator
    decreases |fields|
  {
    var init := fields[..|fields| - 1];
    assert Join(fields) == Join(init) + [Separator, fields[|fields| - 1]];
    if k + 1 < |init| {
      JoinSeparatorAt(init, k);
      assert Join(fields)[2 * k + 1] == Join(init)[2 * k + 1];
    }
  }

  // ---------------------------------------------------------------------
  // The compressed PT/PD label
  // ---------------------------------------------------------------------

  /** Entry i is present and the entry before it is not: i opens a run of present entries. */
  predicate RunStart(t: Table, i: nat)
    requires i < ENTRIES
  {
    t[i].present && (i == 0 || !t[i - 1].present)
  }

  /**
   * What the compressed label shows for entry i: the field of every entry
   * that opens a run and of entry 511, and "..." for the second entry of a
   * run unless that is entry 511.
   */
  function Shown(t: Table, i: nat): (shown: seq<Piece>)
    requires i < ENTRIES
    ensures |shown| <= 1
    ensures forall k :: 0 <= k < |shown| && shown[k].Field? ==> shown[k].index == i
  {
    if t[i].present && (RunStart(t, i) || i == LAST) then [Field(i, t[i].address)]
    else if 0 < i < LAST && t[i].present && RunStart(t, i - 1) then [Ellipsis]
    else []
  }

  /** The fields shown for entries lo .. hi - 1, in index order. */
  function ShownFrom(t: Table, lo: nat, hi: nat): seq<Piece>
    requires lo <= hi <= ENTRIES
    decreases hi - lo
  {
    if lo == hi then [] else ShownFrom(t, lo, hi - 1) + Shown(t, hi - 1)
  }

  /** The fields of a compressed label. */
  function Compressed(t: Table): seq<Piece> {
    ShownFrom(t, 0, ENTRIES)
  }

  /** The printer's state on reaching entry i (before the reset at 511). */
  function StateAt(t: Table, i: nat): Printer
    requires i < ENTRIES
  {
    if 0 < i && t[i - 1].present && t[i].present then
      if RunStart(t, i - 1) then EmitDots else Skip
    else EmitLine
  }

  /**
   * node_label for a PT or PD: the state machine over the 512 entries. The
   * label is the compressed fields joined by separators.
   */
  method CompressedLabel(t: Table) returns (text: seq<Piece>)
    ensures text == Join(Compressed(t))
  {
    text := [];
    var state := EmitLine;
    var i := 0;
    while i < ENTRIES
      invariant 0 <= i <= ENTRIES
      invariant text == Join(ShownFrom(t, 0, i))
      invariant i < ENTRIES ==> state == StateAt(t, i)
    {
      if i == LAST {
        state := EmitLine;
      }
      state, text := PrintEntry(t, i, state, text);
      i := i + 1;
    }
  }

  /**
   * One pass of the PT/PD printer loop: entry i, met in `state` (after the
   * reset at 511), adds what Shown says and leaves the state for entry i + 1.
   */
  method PrintEntry(t: Table, i: nat, state: Printer, text: seq<Piece>) returns (state': Printer, text': seq<Piece>)
    requires i < ENTRIES && text == Join(ShownFrom(t, 0, i))
    requires state == if i == LAST then EmitLine else StateAt(t, i)
    ensures text' == Join(ShownFrom(t, 0, i + 1))
    ensures i + 1 < ENTRIES ==> state' == StateAt(t, i + 1)
  {
    var fields := ShownFrom(t, 0, i);
    assert ShownFrom(t, 0, i + 1) == fields + Shown(t, i);
    var item := t[i];
    text' := text;
    match state {
      case EmitLine =>
        if item.present {
          assert Shown(t, i) == [Field(i, item.address)];
          JoinAppend(fields, Field(i, item.address));
          if |text'| > 0 {
            text' := text' + [Separator];
          }
          text' := text' + [Field(i, item.address)];
          if i < LAST && t[i + 1].present {
            state' := EmitDots;
          } else {
            state' := EmitLine;
          }
        } else {
          assert Shown(t, i) == [];
          assert fields + [] == fields;
          state' := EmitLine;
        }
      case EmitDots =>
        assert Shown(t, i) == [Ellipsis];
        JoinAppend(fields, Ellipsis);
        if |text'| > 0 {
          text' := text' + [Separator];
        }
        text' := text' + [Ellipsis];
        if i < LAST && t[i + 1].present {
          state' := Skip;
        } else {
          state' := EmitLine;
        }
      case Skip =>
        assert Shown(t, i) == [];
        assert fields + [] == fields;
        if i < LAST && t[i + 1].present {
          state' := Skip;
        } else {
          state' := EmitLine;
        }
    }
  }

  /** Entry i is among the fields shown for entries [lo, hi) exactly when it lies there and is shown by itself. */
  lemma {:induction false} ShownFromField(t: Table, lo: nat, hi: nat, i: nat, address: nat)
    requires lo <= hi <= ENTRIES
    ensures Field(i, address) in ShownFrom(t, lo, hi) <==>
              lo <= i < hi && t[i].present && (RunStart(t, i) || i == LAST) && address == t[i].address
    decreases hi - lo
  {
    if lo < hi {
      ShownFromField(t, lo, hi - 1, i, address);
    }
  }

  /**
   * Entry i appears in a compressed label exactly when it is present and
   * either opens a run or is entry 511, and then with its own address.
   */
  lemma CompressedShows(t: Table, i: nat, address: nat)
    requires i < ENTRIES
    ensures Field(i, address) in Compressed(t) <==>
              t[i].present && (RunStart(t, i) || i == LAST) && address == t[i].address
  {
    ShownFromField(t, 0, ENTRIES, i, address);
  }

  /** Entry 511, when present, is always in the compressed label. */
  lemma LastAlwaysShown(t: Table)
    requires t[LAST].present
    ensures Field(LAST, t[LAST].address) in Compressed(t)
  {
    CompressedShows(t, LAST, t[LAST].address);
  }

  /** Every field shown for entries [lo, hi) carries an index in [lo, hi). */
  lemma {:induction false} ShownFromIndices(t: Table, lo: nat, hi: nat)
    requires lo <= hi <= ENTRIES
    ensures forall k :: 0 <= k < |ShownFrom(t, lo, hi)| && ShownFrom(t, lo, hi)[k].Field? ==>
              lo <= ShownFrom(t, lo, hi)[k].index < hi
    decreases hi - lo
  {
    if lo < hi {
      ShownFromIndices(t, lo, hi - 1);
    }
  }

  /** The fields of a compressed label come in strictly increasing index order. */
  lemma {:induction false} ShownFromOrdered(t: Table, hi: nat)
    requires hi <= ENTRIES
    ensures forall p, q :: 0 <= p < q < |ShownFrom(t, 0, hi)| && ShownFrom(t, 0, hi)[p].Field? && ShownFrom(t, 0, hi)[q].Field? ==>
              ShownFrom(t, 0, hi)[p].index < ShownFrom(t, 0, hi)[q].index
  {
    if hi > 0 {
      ShownFromOrdered(t, hi - 1);
      ShownFromIndices(t, 0, hi - 1);
      var init := ShownFrom(t, 0, hi - 1);
      var s := ShownFrom(t, 0, hi);
      forall p, q | 0 <= p < q < |s| && s[p].Field? && s[q].Field?
        ensures s[p].index < s[q].index
      {
        var last := Shown(t, hi - 1);
        assert s == init + last;
        if q < |init| {
          assert s[p] == init[p] && s[q] == init[q];
        } else {
          assert q == |init| && p < |init|;
          assert s[p] == init[p] && s[q] == last[0];
          assert init[p].index < hi - 1;
        }
      }
    }
  }

  /** The number of "..." fields. */
  function Ellipses(s: seq<Piece>): nat {
    if |s| == 0 then 0 else Ellipses(s[..|s| - 1]) + (if s[|s| - 1] == Ellipsis then 1 else 0)
  }

  lemma {:induction false} EllipsesAppend(s: seq<Piece>, u: seq<Piece>)
    ensures Ellipses(s + u) == Ellipses(s) + Ellipses(u)
    decreases |u|
  {
    if |u| == 0 {
      assert s + u == s;
    } else {
      var u' := u[..|u| - 1];
      assert (s + u)[..|s + u| - 1] == s + u';
      assert (s + u)[|s + u| - 1] == u[|u| - 1];
      EllipsesAppend(s, u');
    }
  }

  /** Past the second entry of a run, the printer shows nothing but entry 511. */
  lemma {:induction false} RunTailDots(t: Table, a: nat, hi: nat)
    requires a + 2 <= hi <= ENTRIES && RunStart(t, a)
    requires forall j :: a <= j < hi ==> t[j].present
    ensures Ellipses(ShownFrom(t, a, hi)) == Ellipses(ShownFrom(t, a, a + 2))
    decreases hi
  {
    if hi > a + 2 {
      var k := hi - 1;
      RunTailDots(t, a, k);
      assert t[k].present && t[k - 1].present && t[k - 2].present;
      assert !RunStart(t, k) && !RunStart(t, k - 1);
      var shown := Shown(t, k);
      assert shown == if k == LAST then [Field(k, t[k].address)] else [];
      assert Ellipses(shown) == 0 by {
        if shown != [] {
          assert shown[..0] == [];
        }
      }
      assert ShownFrom(t, a, hi) == ShownFrom(t, a, k) + shown;
      EllipsesAppend(ShownFrom(t, a, k), shown);
    }
  }

  /**
   * The present entries a .. b, a opening a run, contribute one "..." when
   * there are more than one of them, except for [510, 511], which shows both
   * entries and no "...".
   */
  lemma RunEllipses(t: Table, a: nat, b: nat)
    requires a <= b < ENTRIES && RunStart(t, a)
    requires forall j :: a <= j <= b ==> t[j].present
    ensures Ellipses(ShownFrom(t, a, b + 1)) == if a < b && a + 1 != LAST then 1 else 0
  {
    var first := Shown(t, a);
    assert first == [Field(a, t[a].address)];
    assert Ellipses(first) == 0 by {
      assert first[..0] == [];
    }
    assert ShownFrom(t, a, a + 1) == first by {
      assert ShownFrom(t, a, a) == [];
    }
    if a < b {
      var second := Shown(t, a + 1);
      assert t[a + 1].present && !RunStart(t, a + 1);
      assert second == if a + 1 == LAST then [Field(a + 1, t[a + 1].address)] else [Ellipsis];
      assert Ellipses(second) == if a + 1 != LAST then 1 else 0 by {
        assert second[..0] == [];
      }
      assert ShownFrom(t, a, a + 2) == first + second;
      EllipsesAppend(first, second);
      if a + 2 <= b {
        RunTailDots(t, a, b + 1);
      }
    }
  }

  // ---------------------------------------------------------------------
  // The full PDPT/PML4 label
  // ---------------------------------------------------------------------

  /** The fields of the present entries among 0 .. n - 1, in index order. */
  function Listed(t: Table, n: nat): seq<Piece>
    requires n <= ENTRIES
  {
    if n == 0 then []
    else Listed(t, n - 1) + (if t[n - 1].present then [Field(n - 1, t[n - 1].address)] else [])
  }

  /** node_label for a PDPT or PML4: every present entry, joined by separators. */
  method FullLabel(t: Table) returns (text: seq<Piece>)
    ensures text == Join(Listed(t, ENTRIES))
  {
    text := [];
    var i := 0;
    while i < ENTRIES
      invariant 0 <= i <= ENTRIES
      invariant text == Join(Listed(t, i))
    {
      var item := t[i];
      if item.present {
        JoinAppend(Listed(t, i), Field(i, item.address));
        if |text| > 0 {
          text := text + [Separator];
        }
        text := text + [Field(i, item.address)];
      } else {
        assert Listed(t, i + 1) == Listed(t, i) + [];
        assert Listed(t, i) + [] == Listed(t, i);
      }
      i := i + 1;
    }
  }

  /** The full label holds entry i exactly when it is present, with its own address. */
  lemma {:induction false} ListedShows(t: Table, n: nat, i: nat, address: nat)
    requires n <= ENTRIES
    ensures Field(i, address) in Listed(t, n) <==> i < n && t[i].present && address == t[i].address
  {
    if n > 0 {
      ListedShows(t, n - 1, i, address);
    }
  }

  /** Every piece of the full label is a field, and the fields come in strictly increasing index order. */
  lemma {:induction false} ListedOrdered(t: Table, n: nat)
    requires n <= ENTRIES
    ensures forall p :: 0 <= p < |Listed(t, n)| ==> Listed(t, n)[p].Field? && Listed(t, n)[p].index < n
    ensures forall p, q :: 0 <= p < q < |Listed(t, n)| ==> Listed(t, n)[p].index < Listed(t, n)[q].index
  {
    if n > 0 {
      ListedOrdered(t, n - 1);
      var init := Listed(t, n - 1);
      var last: seq<Piece> := if t[n - 1].present then [Field(n - 1, t[n - 1].address)] else [];
      var s := Listed(t, n);
      assert s == init + last;
      forall p | 0 <= p < |s|
        ensures s[p].Field? && s[p].index < n
      {
        if p < |init| {
          assert s[p] == init[p];
        } else {
          assert s[p] == last[p - |init|] == Field(n - 1, t[n - 1].address);
        }
      }
      forall p, q | 0 <= p < q < |s|
        ensures s[p].index < s[q].index
      {
        assert p < |init| && s[p] == init[p] && init[p].index < n - 1;
        if q < |init| {
          assert s[q] == init[q];
        } else {
          assert s[q] == last[q - |init|] == Field(n - 1, t[n - 1].address);
        }
      }
    }
  }

  // ---------------------------------------------------------------------
  // node_label
  // ---------------------------------------------------------------------

  /** node_label: the compressed printer for PT and PD, the full list for PDPT and PML4, a name for a page. */
  method NodeLabel(n: Node) returns (text: seq<Piece>)
    ensures n.Page? ==> text == [PageName(BASE_PAGE_SIZE, n.address)]
    ensures n.LargePage? ==> text == [PageName(LARGE_PAGE_SIZE, n.address)]
    ensures n.HugePage? ==> text == [PageName(HUGE_PAGE_SIZE, n.address)]
    ensures n.PT? || n.PD? ==> text == Join(Compressed(n.table))
    ensures n.PDPT? || n.PML4? ==> text == Join(Listed(n.table, ENTRIES))
  {
    match n {
      case Page(a) => text := [PageName(BASE_PAGE_SIZE, a)];
      case LargePage(a) => text := [PageName(LARGE_PAGE_SIZE, a)];
      case HugePage(a) => text := [PageName(HUGE_PAGE_SIZE, a)];
      case PT(t) => text := CompressedLabel(t);
      case PD(t) => text := CompressedLabel(t);
      case PDPT(t) => text := FullLabel(t);
      case PML4(t) => text := FullLabel(t);
    }
  }
}
