/** The dashboard's presentation of the result rows: one section per
    distinct sector, in ascending order, each holding that sector's rows in
    the order they were produced. */
module Display {
  import opened Pipeline

  /** Python's comparison of strings: lexicographic by code point, a proper
      prefix coming first. */
  predicate Less(a: string, b: string)
    decreases |a|
  {
    if |a| == 0 then |b| > 0
    else if |b| == 0 then false
    else a[0] < b[0] || (a[0] == b[0] && Less(a[1..], b[1..]))
  }

  lemma {:induction false} LessIrreflexive(a: string)
    ensures !Less(a, a)
    decreases |a|
  {
    if |a| > 0 {
      LessIrreflexive(a[1..]);
    }
  }

  lemma {:induction false} LessTransitive(a: string, b: string, c: string)
    requires Less(a, b) && Less(b, c)
    ensures Less(a, c)
    decreases |a|
  {
    if |a| > 0 && a[0] == b[0] && b[0] == c[0] {
      LessTransitive(a[1..], b[1..], c[1..]);
    }
  }

  /** Any two different strings are ordered one way. */
  lemma {:induction false} LessTotal(a: string, b: string)
    requires a != b
    ensures Less(a, b) || Less(b, a)
    decreases |a|
  {
    if |a| > 0 && |b| > 0 && a[0] == b[0] {
      assert a == [a[0]] + a[1..] && b == [b[0]] + b[1..];
      LessTotal(a[1..], b[1..]);
    }
  }

  /** Never both ways. */
  lemma {:induction false} LessAsymmetric(a: string, b: string)
    requires Less(a, b)
    ensures !Less(b, a)
    decreases |a|
  {
    if |a| > 0 && |b| > 0 && a[0] == b[0] {
      LessAsymmetric(a[1..], b[1..]);
    }
  }

  /** Strictly ascending, hence without repeats. */
  predicate StrictlySorted(xs: seq<string>) {
    forall i, j :: 0 <= i < j < |xs| ==> Less(xs[i], xs[j])
  }

  /** No element twice. */
  predicate Distinct(xs: seq<string>) {
    forall i, j :: 0 <= i < j < |xs| ==> xs[i] != xs[j]
  }

  /** The sector column of the rows, in row order. */
  function SectorColumn(rs: seq<Record>): (ss: seq<string>)
    ensures |ss| == |rs|
    ensures forall i :: 0 <= i < |rs| ==> ss[i] == rs[i].sector
  {
    seq(|rs|, i requires 0 <= i < |rs| => rs[i].sector)
  }

  /** `Series.unique()`: the distinct values in order of first appearance. */
  function Unique(xs: seq<string>): (u: seq<string>)
    ensures Distinct(u)
    ensures forall x :: x in u <==> x in xs
    decreases |xs|
  {
    if xs == [] then []
    else
      var u := Unique(xs[..|xs| - 1]);
      if xs[|xs| - 1] in u then u else u + [xs[|xs| - 1]]
  }

  /** Places `x` in an ascending list, where it is not already. */
  function Insert(xs: seq<string>, x: string): (r: seq<string>)
    requires StrictlySorted(xs)
    ensures StrictlySorted(r)
    ensures forall y :: y in r <==> y in xs || y == x
    ensures |r| == if x in xs then |xs| else |xs| + 1
    decreases |xs|
  {
    if xs == [] then [x]
    else if x == xs[0] then xs
    else if Less(x, xs[0]) then
      forall j | 0 < j < |xs| ensures Less(x, xs[j]) {
        LessTransitive(x, xs[0], xs[j]);
      }
      LessIrreflexive(x);
      [x] + xs
    else
      LessTotal(x, xs[0]);
      var rest := Insert(xs[1..], x);
      assert forall j :: 0 <= j < |rest| ==> Less(xs[0], rest[j]) by {
        forall j | 0 <= j < |rest| ensures Less(xs[0], rest[j]) {
          if rest[j] != x {
            assert rest[j] in rest;
            var k :| 0 <= k < |xs[1..]| && xs[1..][k] == rest[j];
            assert Less(xs[0], xs[k + 1]);
          }
        }
      }
      [xs[0]] + rest
  }

  /** `sorted(...)` of a list of distinct strings: the same strings, as
      many, in ascending order. */
  function Sort(xs: seq<string>): (r: seq<string>)
    requires Distinct(xs)
    ensures StrictlySorted(r)
    ensures forall y :: y in r <==> y in xs
    ensures |r| == |xs|
    decreases |xs|
  {
    if xs == [] then []
    else Insert(Sort(xs[..|xs| - 1]), xs[|xs| - 1])
  }

  /** The sections' sectors: `sorted(df["Sector"].unique())`. A frame built
      from no rows has no "Sector" column, so the source needs a row. */
  function Sectors(rs: seq<Record>): (ss: seq<string>)
    requires |rs| > 0
    ensures StrictlySorted(ss)
    ensures forall s :: s in ss <==> exists i :: 0 <= i < |rs| && rs[i].sector == s
  {
    var col := SectorColumn(rs);
    var ss := Sort(Unique(col));
    assert forall s :: s in col <==> exists i :: 0 <= i < |rs| && rs[i].sector == s by {
      forall s ensures s in col <==> exists i :: 0 <= i < |rs| && rs[i].sector == s {
        if s in col {
          var i :| 0 <= i < |col| && col[i] == s;
        }
      }
    }
    ss
  }

  /** A strictly ascending list is fixed by its elements: sorting the
      distinct sectors leaves one possible order. */
  lemma {:induction false} SortedUnique(xs: seq<string>, ys: seq<string>)
    requires StrictlySorted(xs) && StrictlySorted(ys)
    requires forall s :: s in xs <==> s in ys
    ensures xs == ys
    decreases |xs|
  {
    if xs != [] {
      assert xs[0] in xs;
    }
    if ys != [] {
      assert ys[0] in ys;
    }
    if xs != [] && ys != [] {
      if xs[0] != ys[0] {
        var m :| 0 <= m < |ys| && ys[m] == xs[0];
        var k :| 0 <= k < |xs| && xs[k] == ys[0];
        assert Less(ys[0], xs[0]) && Less(xs[0], ys[0]);
        LessAsymmetric(ys[0], xs[0]);
        assert false;
      }
      forall s ensures s in xs[1..] <==> s in ys[1..] {
        if s in xs[1..] {
          var k :| 0 <= k < |xs[1..]| && xs[1..][k] == s;
          assert Less(xs[0], xs[k + 1]);
          LessIrreflexive(s);
          assert s in ys;
          var m :| 0 <= m < |ys| && ys[m] == s;
          assert m != 0;
          assert ys[1..][m - 1] == s;
        }
        if s in ys[1..] {
          var k :| 0 <= k < |ys[1..]| && ys[1..][k] == s;
          assert Less(ys[0], ys[k + 1]);
          LessIrreflexive(s);
          assert s in xs;
          var m :| 0 <= m < |xs| && xs[m] == s;
          assert m != 0;
          assert xs[1..][m - 1] == s;
        }
      }
      SortedUnique(xs[1..], ys[1..]);
      assert xs == [xs[0]] + xs[1..] && ys == [ys[0]] + ys[1..];
    }
  }

  /** `df[df["Sector"] == sector]`: the rows of one sector, in row order. */
  function Group(rs: seq<Record>, sector: string): (g: seq<Record>)
    ensures forall r :: r in g ==> r in rs && r.sector == sector
    decreases |rs|
  {
    if rs == [] then []
    else
      var g := Group(rs[..|rs| - 1], sector);
      if rs[|rs| - 1].sector == sector then g + [rs[|rs| - 1]] else g
  }

  /** The filter splits over concatenation, so a group keeps the rows'
      order. */
  lemma {:induction false} GroupAppend(a: seq<Record>, b: seq<Record>, sector: string)
    ensures Group(a + b, sector) == Group(a, sector) + Group(b, sector)
    decreases |b|
  {
    if b != [] {
      var n := |b| - 1;
      assert (a + b)[..|a + b| - 1] == a + b[..n];
      GroupAppend(a, b[..n], sector);
    } else {
      assert a + b == a;
    }
  }

  /** A group holds every row of its sector as often as the rows do, and
      nothing else. */
  lemma {:induction false} GroupCount(rs: seq<Record>, sector: string, r: Record)
    ensures multiset(Group(rs, sector))[r] == if r.sector == sector then multiset(rs)[r] else 0
    decreases |rs|
  {
    if rs != [] {
      var n := |rs| - 1;
      GroupCount(rs[..n], sector, r);
      assert rs == rs[..n] + [rs[n]];
    }
  }

  /** The dashboard: for each sector in ascending order, that sector's rows. */
  function Sections(rs: seq<Record>): (d: seq<(string, seq<Record>)>)
    requires |rs| > 0
    ensures |d| == |Sectors(rs)|
    ensures forall i :: 0 <= i < |d| ==> d[i].0 == Sectors(rs)[i] && d[i].1 == Group(rs, d[i].0)
  {
    var ss := Sectors(rs);
    seq(|ss|, i requires 0 <= i < |ss| => (ss[i], Group(rs, ss[i])))
  }

  /** Every section shows at least one row. */
  lemma SectionsNonEmpty(rs: seq<Record>)
    requires |rs| > 0
    ensures forall i :: 0 <= i < |Sections(rs)| ==> |Sections(rs)[i].1| > 0
  {
    forall i | 0 <= i < |Sections(rs)|
      ensures |Sections(rs)[i].1| > 0
    {
      var s := Sections(rs)[i].0;
      assert s in Sectors(rs);
      var k :| 0 <= k < |rs| && rs[k].sector == s;
      GroupCount(rs, s, rs[k]);
      assert rs[k] in multiset(rs);
    }
  }

  /** Every row appears in exactly one section: the one of its sector. */
  lemma SectionOfRow(rs: seq<Record>, k: nat)
    requires k < |rs|
    ensures exists i :: 0 <= i < |Sections(rs)| && rs[k] in Sections(rs)[i].1
    ensures forall i :: 0 <= i < |Sections(rs)| && rs[k] in Sections(rs)[i].1 ==> Sections(rs)[i].0 == rs[k].sector
  {
    var d := Sections(rs);
    var ss := Sectors(rs);
    assert rs[k].sector in ss;
    var i :| 0 <= i < |ss| && ss[i] == rs[k].sector;
    GroupCount(rs, ss[i], rs[k]);
    assert rs[k] in multiset(rs);
    assert rs[k] in d[i].1;
  }

  /** All the sections' rows, one section after another. */
  function Concat(d: seq<(string, seq<Record>)>): (all: seq<Record>)
    decreases |d|
  {
    if d == [] then [] else d[0].1 + Concat(d[1..])
  }

  /** The rows whose sector is one of `ss`. */
  function Among(rs: seq<Record>, ss: seq<string>): (g: seq<Record>)
    decreases |rs|
  {
    if rs == [] then []
    else
      var g := Among(rs[..|rs| - 1], ss);
      if rs[|rs| - 1].sector in ss then g + [rs[|rs| - 1]] else g
  }

  /** Splitting off the first of distinct sectors. */
  lemma {:induction false} AmongSplit(rs: seq<Record>, s: string, ss: seq<string>)
    requires s !in ss
    ensures multiset(Among(rs, [s] + ss)) == multiset(Group(rs, s)) + multiset(Among(rs, ss))
    decreases |rs|
  {
    if rs != [] {
      AmongSplit(rs[..|rs| - 1], s, ss);
    }
  }

  /** The sections of any distinct sectors together hold exactly the rows of
      those sectors. */
  lemma {:induction false} ConcatGroups(rs: seq<Record>, ss: seq<string>)
    requires Distinct(ss)
    ensures multiset(Concat(seq(|ss|, i requires 0 <= i < |ss| => (ss[i], Group(rs, ss[i]))))) == multiset(Among(rs, ss))
    decreases |ss|
  {
    var d := seq(|ss|, i requires 0 <= i < |ss| => (ss[i], Group(rs, ss[i])));
    if ss == [] {
      assert Among(rs, ss) == [] by {
        AmongNone(rs, ss);
      }
    } else {
      var rest := ss[1..];
      assert Distinct(rest);
      ConcatGroups(rs, rest);
      assert d[1..] == seq(|rest|, i requires 0 <= i < |rest| => (rest[i], Group(rs, rest[i])));
      assert ss == [ss[0]] + rest;
      AmongSplit(rs, ss[0], rest);
    }
  }

  /** No sector, no rows. */
  lemma {:induction false} AmongNone(rs: seq<Record>, ss: seq<string>)
    requires ss == []
    ensures Among(rs, ss) == []
    decreases |rs|
  {
    if rs != [] {
      AmongNone(rs[..|rs| - 1], ss);
    }
  }

  /** Every row's sector is a section's, so keeping the rows among the
      sections keeps them all. */
  lemma {:induction false} AmongAll(rs: seq<Record>, ss: seq<string>)
    requires forall k :: 0 <= k < |rs| ==> rs[k].sector in ss
    ensures Among(rs, ss) == rs
    decreases |rs|
  {
    if rs != [] {
      var n := |rs| - 1;
      AmongAll(rs[..n], ss);
      assert rs == rs[..n] + [rs[n]];
    }
  }

  /** The sections partition the rows: shown one after another they hold
      every row exactly as often as the rows do. */
  lemma SectionsPartition(rs: seq<Record>)
    requires |rs| > 0
    ensures multiset(Concat(Sections(rs))) == multiset(rs)
  {
    var ss := Sectors(rs);
    assert Distinct(ss) by {
      forall i, j | 0 <= i < j < |ss| ensures ss[i] != ss[j] {
        assert Less(ss[i], ss[j]);
        if ss[i] == ss[j] {
          LessIrreflexive(ss[i]);
        }
      }
    }
    ConcatGroups(rs, ss);
    assert Sections(rs) == seq(|ss|, i requires 0 <= i < |ss| => (ss[i], Group(rs, ss[i])));
    forall k | 0 <= k < |rs| ensures rs[k].sector in ss {
    }
    AmongAll(rs, ss);
  }

  /** The sectors of two technology rows around a consumer row. */
  lemma SectorsExample(a: Record, b: Record, c: Record)
    requires a.sector == "Tecnología" && b.sector == "Consumo" && c.sector == "Tecnología"
    ensures Sectors([a, b, c]) == ["Consumo", "Tecnología"]
  {
    var rs := [a, b, c];
    var ss := ["Consumo", "Tecnología"];
    assert Less("Consumo", "Tecnología");
    forall s ensures s in Sectors(rs) <==> s in ss {
      if s in ss {
        assert rs[if s == "Consumo" then 1 else 0].sector == s;
      }
    }
    SortedUnique(Sectors(rs), ss);
  }

  /** The groups of two technology rows around a consumer row. */
  lemma GroupsExample(a: Record, b: Record, c: Record)
    requires a.sector == "Tecnología" && b.sector == "Consumo" && c.sector == "Tecnología"
    ensures Group([a, b, c], "Consumo") == [b]
    ensures Group([a, b, c], "Tecnología") == [a, c]
  {
    assert [a, b, c][..2] == [a, b] && [a, b][..1] == [a] && [a][..0] == [];
    assert "Consumo" != "Tecnología";
    assert Group([a], "Consumo") == [];
    assert Group([a, b], "Consumo") == [b];
    assert Group([a], "Tecnología") == [a];
    assert Group([a, b], "Tecnología") == [a];
  }

  /** Two technology rows around a consumer row give the consumer section
      first, then the technology section with its rows in their order. */
  lemma SectionsExample(a: Record, b: Record, c: Record)
    requires a.sector == "Tecnología" && b.sector == "Consumo" && c.sector == "Tecnología"
    ensures Sections([a, b, c]) == [("Consumo", [b]), ("Tecnología", [a, c])]
  {
    SectorsExample(a, b, c);
    GroupsExample(a, b, c);
    var d := Sections([a, b, c]);
    assert |d| == 2 && d[0] == ("Consumo", [b]) && d[1] == ("Tecnología", [a, c]);
  }
}
