/**
  The report of show_net_affinity: a header line, then one line per
  interface channel naming its irq and, split by NUMA node, the cores its
  current smp_affinity mask decodes to. The content of each irq's
  smp_affinity file (as read, without its line end) is a parameter.
 */
module Report {
  import opened Digits
  import opened Codec
  import opened Numa
  import opened Affinity

  /** `sprintf("%<w>s")` and `%<w>d`: right-aligned in w columns, never cut. */
  function PadLeft(s: string, w: nat): (r: string)
    ensures |r| == if |s| < w then w else |s|
    ensures r[|r| - |s|..] == s
    ensures forall k :: 0 <= k < |r| - |s| ==> r[k] == ' '
  {
    if |s| < w then Spaces(w - |s|) + s else s
  }

  function Spaces(n: nat): (r: string)
    ensures |r| == n && forall k :: 0 <= k < n ==> r[k] == ' '
  {
    if n == 0 then "" else Spaces(n - 1) + " "
  }

  /** Array#join. */
  function Join(items: seq<string>, sep: string): string
  {
    if |items| == 0 then "" else if |items| == 1 then items[0] else items[0] + sep + Join(items[1..], sep)
  }

  /** How often c occurs in s. */
  function Count(s: string, c: char): nat
  {
    if s == [] then 0 else (if s[0] == c then 1 else 0) + Count(s[1..], c)
  }

  lemma {:induction false} CountAppend(a: string, b: string, c: char)
    ensures Count(a + b, c) == Count(a, c) + Count(b, c)
    decreases |a|
  {
    if a != [] {
      assert (a + b)[0] == a[0];
      assert (a + b)[1..] == a[1..] + b;
      CountAppend(a[1..], b, c);
    } else {
      assert a + b == b;
    }
  }

  /** The numbers, in decimal, one per core. */
  function Decimals(cores: seq<nat>): (ds: seq<string>)
    ensures |ds| == |cores|
  {
    if cores == [] then [] else [Decimal(cores[0])] + Decimals(cores[1..])
  }

  /** A report cell: `c.length == 0 ? "-" : c.join(",")`. */
  function CoreCell(cores: seq<nat>): string
  {
    if cores == [] then "-" else Join(Decimals(cores), ",")
  }

  /** Joining n comma-free items puts n-1 commas in, and the items' characters otherwise. */
  lemma {:induction false} JoinCommas(items: seq<string>)
    requires |items| >= 1
    requires forall k :: 0 <= k < |items| ==> Count(items[k], ',') == 0
    ensures Count(Join(items, ","), ',') == |items| - 1
    decreases |items|
  {
    if |items| > 1 {
      JoinCommas(items[1..]);
      CountAppend(items[0], ",", ',');
      CountAppend(items[0] + ",", Join(items[1..], ","), ',');
      assert Count(",", ',') == 1;
    }
  }

  lemma {:induction false} DecimalsAt(cores: seq<nat>, k: nat)
    requires k < |cores|
    ensures Decimals(cores)[k] == Decimal(cores[k])
    decreases k
  {
    if k > 0 {
      DecimalsAt(cores[1..], k - 1);
    }
  }

  lemma DecimalHasNoComma(n: nat)
    ensures Count(Decimal(n), ',') == 0
  {
    DigitsHaveNoComma(Decimal(n), 10);
    CountZero(Decimal(n), ',');
  }

  lemma {:induction false} CountZero(s: string, c: char)
    requires c !in s
    ensures Count(s, c) == 0
    decreases |s|
  {
    if s != [] {
      CountZero(s[1..], c);
    }
  }

  /** The fields of s between the separator characters, in order; a text without one is one field. */
  function Fields(s: string, sep: char): (fs: seq<string>)
    ensures |fs| >= 1
    decreases |s|
  {
    if |s| == 0 then [""]
    else if s[0] == sep then [""] + Fields(s[1..], sep)
    else
      var f := Fields(s[1..], sep);
      [[s[0]] + f[0]] + f[1..]
  }

  /** A separator-free start of the text joins the text's first field. */
  lemma {:induction false} FieldsPrefix(a: string, rest: string, sep: char)
    requires sep !in a
    ensures Fields(a + rest, sep) == [a + Fields(rest, sep)[0]] + Fields(rest, sep)[1..]
    decreases |a|
  {
    if |a| > 0 {
      var s, fr := a + rest, Fields(rest, sep);
      assert s[0] == a[0] && a[0] in a;
      assert s[1..] == a[1..] + rest;
      FieldsPrefix(a[1..], rest, sep);
      var f := Fields(s[1..], sep);
      assert f == [a[1..] + fr[0]] + fr[1..];
      assert f[0] == a[1..] + fr[0] && f[1..] == fr[1..];
      assert Fields(s, sep) == [[a[0]] + f[0]] + f[1..];
      assert [a[0]] + (a[1..] + fr[0]) == a + fr[0];
    } else {
      var fr := Fields(rest, sep);
      assert a + rest == rest && a + fr[0] == fr[0];
      assert [fr[0]] + fr[1..] == fr;
    }
  }

  /** Splitting separator-free items, joined with the separator, at the separators gives the items back. */
  lemma {:induction false} FieldsJoin(items: seq<string>, sep: char)
    requires |items| >= 1
    requires forall k :: 0 <= k < |items| ==> sep !in items[k]
    ensures Fields(Join(items, [sep]), sep) == items
    decreases |items|
  {
    assert Fields("", sep) == [""];
    if |items| == 1 {
      FieldsPrefix(items[0], "", sep);
      assert items[0] + "" == items[0];
      assert Join(items, [sep]) == items[0];
    } else {
      var r := Join(items[1..], [sep]);
      assert Join(items, [sep]) == items[0] + ([sep] + r);
      FieldsJoin(items[1..], sep);
      FieldsSep(r, sep);
      FieldsPrefix(items[0], [sep] + r, sep);
      var fc := Fields([sep] + r, sep);
      assert fc[0] == "" && fc[1..] == Fields(r, sep);
      assert items[0] + fc[0] == items[0];
      assert items == [items[0]] + items[1..];
    }
  }

  lemma FieldsSep(r: string, sep: char)
    ensures Fields([sep] + r, sep) == [""] + Fields(r, sep)
  {
    assert ([sep] + r)[0] == sep && ([sep] + r)[1..] == r;
  }

  /** A character in neither the separator nor any item is not in their join. */
  lemma {:induction false} JoinAvoids(items: seq<string>, sep: string, c: char)
    requires c !in sep && forall k :: 0 <= k < |items| ==> c !in items[k]
    ensures c !in Join(items, sep)
    decreases |items|
  {
    if |items| > 1 {
      JoinAvoids(items[1..], sep, c);
    }
  }

  /** The fields of a non-empty cell are the cores in decimal, in order, and each reads back as its core. */
  lemma CoreCellFields(cores: seq<nat>)
    requires cores != []
    ensures Fields(CoreCell(cores), ',') == Decimals(cores)
    ensures forall k :: 0 <= k < |cores| ==>
              AllDigits(Fields(CoreCell(cores), ',')[k], 10) && FromDigits(Fields(CoreCell(cores), ',')[k], 10) == cores[k]
  {
    var ds := Decimals(cores);
    forall k | 0 <= k < |ds|
      ensures ',' !in ds[k] && AllDigits(ds[k], 10) && FromDigits(ds[k], 10) == cores[k]
    {
      DecimalsAt(cores, k);
      DigitsHaveNoComma(ds[k], 10);
      FromToDigits(cores[k], 10);
    }
    FieldsJoin(ds, ',');
  }

  /**
    A cell is "-" exactly when the node has no decoded core; otherwise its
    comma-separated fields are the cores in decimal, in order, each reading
    back as its core, with one comma between neighbours.
   */
  lemma CoreCellSpec(cores: seq<nat>)
    ensures CoreCell(cores) == "-" <==> cores == []
    ensures cores != [] ==> Count(CoreCell(cores), ',') == |cores| - 1
    ensures cores != [] ==> Fields(CoreCell(cores), ',') == Decimals(cores)
    ensures cores != [] ==> forall k :: 0 <= k < |cores| ==>
              AllDigits(Fields(CoreCell(cores), ',')[k], 10) && FromDigits(Fields(CoreCell(cores), ',')[k], 10) == cores[k]
  {
    if cores != [] {
      CoreCellFields(cores);
      var ds := Decimals(cores);
      forall k | 0 <= k < |ds|
        ensures Count(ds[k], ',') == 0
      {
        DecimalsAt(cores, k);
        DecimalHasNoComma(cores[k]);
      }
      JoinCommas(ds);
      if |cores| == 1 {
        DecimalsAt(cores, 0);
        assert CoreCell(cores) == Decimal(cores[0]);
        assert CoreCell(cores)[0] != '-' by {
          assert IsLowerHexChar(Decimal(cores[0])[0]);
        }
      } else {
        assert Count(CoreCell(cores), ',') >= 1;
        assert Count("-", ',') == 0;
      }
    }
  }

  function Header(): string
  {
    Join([PadLeft("iface", 10), PadLeft("ch", 3), PadLeft("irq", 4), PadLeft("numa0", 20), PadLeft("numa1", 20)], "\t")
  }

  /** The header's tab-separated columns are the five titles, right-aligned in their widths. */
  lemma HeaderColumns()
    ensures Fields(Header(), '\t') ==
            [PadLeft("iface", 10), PadLeft("ch", 3), PadLeft("irq", 4), PadLeft("numa0", 20), PadLeft("numa1", 20)]
  {
    PadLeftAvoids("iface", 10, '\t');
    PadLeftAvoids("ch", 3, '\t');
    PadLeftAvoids("irq", 4, '\t');
    PadLeftAvoids("numa0", 20, '\t');
    PadLeftAvoids("numa1", 20, '\t');
    TabColumns(PadLeft("iface", 10), PadLeft("ch", 3), PadLeft("irq", 4), PadLeft("numa0", 20), PadLeft("numa1", 20));
  }

  /** Five tab-free columns joined with tabs split back into the five. */
  lemma TabColumns(a: string, b: string, c: string, d: string, e: string)
    requires '\t' !in a && '\t' !in b && '\t' !in c && '\t' !in d && '\t' !in e
    ensures Fields(Join([a, b, c, d, e], "\t"), '\t') == [a, b, c, d, e]
  {
    var cells := [a, b, c, d, e];
    assert forall k :: 0 <= k < |cells| ==> '\t' !in cells[k];
    FieldsJoin(cells, '\t');
  }

  /** Padding with spaces brings in no other character. */
  lemma PadLeftAvoids(x: string, w: nat, c: char)
    requires c != ' ' && c !in x
    ensures c !in PadLeft(x, w)
  {
    var r := PadLeft(x, w);
    forall k | 0 <= k < |r|
      ensures r[k] != c
    {
      if k >= |r| - |x| {
        assert r[k] == r[|r| - |x|..][k - (|r| - |x|)];
      }
    }
  }

  /** A numeral holds no tab. */
  lemma DigitsAvoidTab(s: string, base: nat)
    requires AllDigits(s, base)
    ensures '\t' !in s
  {
    forall i | 0 <= i < |s|
      ensures s[i] != '\t'
    {
      assert IsHexChar(s[i]);
    }
  }

  /** A core cell holds no tab. */
  lemma CoreCellAvoidsTab(cores: seq<nat>)
    ensures '\t' !in CoreCell(cores)
  {
    if cores != [] {
      var ds := Decimals(cores);
      forall k | 0 <= k < |ds|
        ensures '\t' !in ds[k]
      {
        DecimalsAt(cores, k);
        DigitsAvoidTab(ds[k], 10);
      }
      JoinAvoids(ds, ",", '\t');
    }
  }

  /** One channel of one interface: its name, its channel number and its irq. */
  datatype Entry = Entry(iface: string, channel: nat, irq: nat)

  /** The channels of every interface, interface by interface, channel by channel. */
  function Entries(table: seq<Interface>): seq<Entry>
    decreases |table|
  {
    if |table| == 0 then []
    else
      var k := |table| - 1;
      Entries(table[..k]) + Channels(table[k], |table[k].irqs|)
  }

  /** The first m channels of one interface. */
  function Channels(p: Interface, m: nat): (es: seq<Entry>)
    requires m <= |p.irqs|
    ensures |es| == m
  {
    seq(m, ch requires 0 <= ch < m => Entry(p.name, ch, p.irqs[ch]))
  }

  lemma ChannelsSnoc(p: Interface, m: nat)
    requires m < |p.irqs|
    ensures Channels(p, m + 1) == Channels(p, m) + [Entry(p.name, m, p.irqs[m])]
  {
  }

  /** Every entry is a channel of a table interface with that channel's irq, and every such channel is an entry. */
  lemma {:induction false} EntriesSpec(table: seq<Interface>)
    ensures forall e :: e in Entries(table) <==>
              exists k :: 0 <= k < |table| && e.iface == table[k].name && e.channel < |table[k].irqs| &&
                          e.irq == table[k].irqs[e.channel]
    decreases |table|
  {
    if |table| > 0 {
      var n := |table| - 1;
      var u := table[..n];
      EntriesSpec(u);
      assert forall k :: 0 <= k < n ==> u[k] == table[k];
      forall e | e in Entries(table)
        ensures exists k :: 0 <= k < |table| && e.iface == table[k].name && e.channel < |table[k].irqs| &&
                            e.irq == table[k].irqs[e.channel]
      {
        if e !in Entries(u) {
          var ch :| 0 <= ch < |table[n].irqs| && Channels(table[n], |table[n].irqs|)[ch] == e;
        }
      }
      forall e: Entry, k | 0 <= k < |table| && e.iface == table[k].name && e.channel < |table[k].irqs| &&
                    e.irq == table[k].irqs[e.channel]
        ensures e in Entries(table)
      {
        if k == n {
          assert Channels(table[n], |table[n].irqs|)[e.channel] == e;
        } else {
          assert u[k] == table[k];
        }
      }
    }
  }

  /** Every irq's smp_affinity content is hex digits and commas, as the kernel writes it. */
  ghost predicate HexMasks(smpAffinity: nat -> string)
  {
    forall irq :: AllDigits(RemoveCommas(smpAffinity(irq)), 16)
  }

  /** The smp_affinity content of every entry's irq has a comma, so hex_to_dec can read it. */
  predicate Decodable(es: seq<Entry>, smpAffinity: nat -> string)
  {
    forall k :: 0 <= k < |es| ==> ',' in smpAffinity(es[k].irq)
  }

  lemma DecodableAppend(a: seq<Entry>, b: seq<Entry>, smpAffinity: nat -> string)
    requires Decodable(a, smpAffinity) && Decodable(b, smpAffinity)
    ensures Decodable(a + b, smpAffinity)
  {
    assert forall k :: 0 <= k < |a| ==> (a + b)[k] == a[k];
    assert forall k :: |a| <= k < |a + b| ==> (a + b)[k] == b[k - |a|];
  }

  /**
    The cores the mask on an entry's irq decodes to, node 0's and node 1's.
    A mask that does not decode gives none; the report never holds the line
    of such an entry.
   */
  function Decoded(t: Topology, e: Entry, smpAffinity: nat -> string): (seq<nat>, seq<nat>)
  {
    var mask := smpAffinity(e.irq);
    if AllDigits(RemoveCommas(mask), 16) && ',' in mask then HexmapToCoreList(t, mask, |t|).value else ([], [])
  }

  /** The report line of an entry whose mask decodes to the given split. */
  function Line(e: Entry, split: (seq<nat>, seq<nat>)): string
  {
    Join([PadLeft(e.iface, 10), PadLeft(Decimal(e.channel), 3), PadLeft(Decimal(e.irq), 4),
          PadLeft(CoreCell(split.0), 20), PadLeft(CoreCell(split.1), 20)], "\t")
  }

  /**
    A line's tab-separated columns are the interface, the channel and the irq
    right-aligned in 10, 3 and 4 columns, then the two core cells in 20 each
    (for an interface name without a tab).
   */
  lemma LineColumns(e: Entry, split: (seq<nat>, seq<nat>))
    requires '\t' !in e.iface
    ensures Fields(Line(e, split), '\t') ==
            [PadLeft(e.iface, 10), PadLeft(Decimal(e.channel), 3), PadLeft(Decimal(e.irq), 4),
             PadLeft(CoreCell(split.0), 20), PadLeft(CoreCell(split.1), 20)]
  {
    var ch, irq := Decimal(e.channel), Decimal(e.irq);
    DigitsAvoidTab(ch, 10);
    DigitsAvoidTab(irq, 10);
    CoreCellAvoidsTab(split.0);
    CoreCellAvoidsTab(split.1);
    PadLeftAvoids(e.iface, 10, '\t');
    PadLeftAvoids(ch, 3, '\t');
    PadLeftAvoids(irq, 4, '\t');
    PadLeftAvoids(CoreCell(split.0), 20, '\t');
    PadLeftAvoids(CoreCell(split.1), 20, '\t');
    TabColumns(PadLeft(e.iface, 10), PadLeft(ch, 3), PadLeft(irq, 4),
               PadLeft(CoreCell(split.0), 20), PadLeft(CoreCell(split.1), 20));
  }

  /** The line of each entry, in order. */
  function Rows(t: Topology, es: seq<Entry>, smpAffinity: nat -> string): (rows: seq<string>)
    decreases |es|
  {
    if es == [] then []
    else
      var n := |es| - 1;
      Rows(t, es[..n], smpAffinity) + [Line(es[n], Decoded(t, es[n], smpAffinity))]
  }

  /** Adding an entry adds its line. */
  lemma RowsSnoc(t: Topology, es: seq<Entry>, e: Entry, smpAffinity: nat -> string)
    ensures Rows(t, es + [e], smpAffinity) == Rows(t, es, smpAffinity) + [Line(e, Decoded(t, e, smpAffinity))]
  {
    assert (es + [e])[..|es|] == es;
  }

  /** The lines of two runs of entries are the lines of the first run, then those of the second. */
  lemma {:induction false} RowsAppend(t: Topology, a: seq<Entry>, b: seq<Entry>, smpAffinity: nat -> string)
    ensures Rows(t, a + b, smpAffinity) == Rows(t, a, smpAffinity) + Rows(t, b, smpAffinity)
    decreases |b|
  {
    if b == [] {
      assert a + b == a;
    } else {
      var n := |b| - 1;
      var c := b[..n];
      assert b == c + [b[n]];
      RowsAppend(t, a, c, smpAffinity);
      AppendAssoc(a, c, [b[n]]);
      RowsSnoc(t, a + c, b[n], smpAffinity);
      RowsSnoc(t, c, b[n], smpAffinity);
      AppendAssoc(Rows(t, a, smpAffinity), Rows(t, c, smpAffinity), [Line(b[n], Decoded(t, b[n], smpAffinity))]);
    }
  }

  lemma AppendAssoc<T>(a: seq<T>, b: seq<T>, c: seq<T>)
    ensures (a + b) + c == a + (b + c)
  {
  }

  /** One more channel whose mask has a comma keeps the channels decodable. */
  lemma ChannelDecodable(p: Interface, ch: nat, smpAffinity: nat -> string)
    requires ch < |p.irqs| && ',' in smpAffinity(p.irqs[ch])
    requires Decodable(Channels(p, ch), smpAffinity)
    ensures Decodable(Channels(p, ch + 1), smpAffinity)
  {
    ChannelsSnoc(p, ch);
    DecodableAppend(Channels(p, ch), [Entry(p.name, ch, p.irqs[ch])], smpAffinity);
  }

  /** The line of one more channel extends the lines of the channels before it. */
  lemma ChannelStep(t: Topology, p: Interface, ch: nat, smpAffinity: nat -> string, report: seq<string>, e: Entry)
    requires ch < |p.irqs| && e == Entry(p.name, ch, p.irqs[ch])
    ensures report + Rows(t, Channels(p, ch), smpAffinity) + [Line(e, Decoded(t, e, smpAffinity))] ==
            report + Rows(t, Channels(p, ch + 1), smpAffinity)
  {
    var rows := Rows(t, Channels(p, ch), smpAffinity);
    ChannelsSnoc(p, ch);
    RowsSnoc(t, Channels(p, ch), e, smpAffinity);
    AppendAssoc(report, rows, [Line(e, Decoded(t, e, smpAffinity))]);
  }

  /**
    The block show_net_affinity runs for one interface: the line of each
    channel pushed onto the report in channel order, or the error of the
    first channel whose mask has no comma.
   */
  method ReportInterface(t: Topology, p: Interface, smpAffinity: nat -> string, report: seq<string>)
    returns (r: Result<seq<string>>)
    requires HexMasks(smpAffinity)
    ensures r.Err? <==> !Decodable(Channels(p, |p.irqs|), smpAffinity)
    ensures r.Ok? ==> r.value == report + Rows(t, Channels(p, |p.irqs|), smpAffinity)
  {
    var lines := report;
    var ch := 0;
    assert Channels(p, 0) == [];
    while ch < |p.irqs|
      invariant 0 <= ch <= |p.irqs|
      invariant Decodable(Channels(p, ch), smpAffinity)
      invariant lines == report + Rows(t, Channels(p, ch), smpAffinity)
    {
      var irq := p.irqs[ch];
      var c := HexmapToCoreList(t, smpAffinity(irq), |t|);
      if c.Err? {
        assert Channels(p, |p.irqs|)[ch].irq == irq;
        return Err(c.error);
      }
      var e := Entry(p.name, ch, irq);
      ChannelDecodable(p, ch, smpAffinity);
      ChannelStep(t, p, ch, smpAffinity, report, e);
      lines := lines + [Line(e, c.value)];
      ch := ch + 1;
    }
    r := Ok(lines);
  }

  lemma EntriesSnoc(table: seq<Interface>, i: nat)
    requires i < |table|
    ensures Entries(table[..i + 1]) == Entries(table[..i]) + Channels(table[i], |table[i].irqs|)
  {
    assert table[..i + 1][..i] == table[..i];
  }

  /** The lines of one more interface's channels extend the report of the entries before them. */
  lemma ReportStep(t: Topology, table: seq<Interface>, i: nat, smpAffinity: nat -> string, head: seq<string>, report: seq<string>)
    requires i < |table|
    requires Decodable(Entries(table[..i]), smpAffinity)
    requires Decodable(Channels(table[i], |table[i].irqs|), smpAffinity)
    requires report == head + Rows(t, Entries(table[..i]), smpAffinity)
    ensures Decodable(Entries(table[..i + 1]), smpAffinity)
    ensures report + Rows(t, Channels(table[i], |table[i].irqs|), smpAffinity) ==
            head + Rows(t, Entries(table[..i + 1]), smpAffinity)
  {
    var es, cs := Entries(table[..i]), Channels(table[i], |table[i].irqs|);
    EntriesSnoc(table, i);
    DecodableAppend(es, cs, smpAffinity);
    RowsAppend(t, es, cs, smpAffinity);
    AppendAssoc(head, Rows(t, es, smpAffinity), Rows(t, cs, smpAffinity));
  }

  /** An interface with a channel whose mask has no comma leaves the table undecodable. */
  lemma MissingComma(table: seq<Interface>, i: nat, smpAffinity: nat -> string)
    requires i < |table| && !Decodable(Channels(table[i], |table[i].irqs|), smpAffinity)
    ensures !Decodable(Entries(table), smpAffinity)
  {
    var p := table[i];
    var ch :| 0 <= ch < |p.irqs| && ',' !in smpAffinity(Channels(p, |p.irqs|)[ch].irq);
    EntriesSpec(table);
    var e := Entry(p.name, ch, p.irqs[ch]);
    assert e in Entries(table);
    var k :| 0 <= k < |Entries(table)| && Entries(table)[k] == e;
  }

  /**
    show_net_affinity: the header, then for every interface and every
    channel the line of its irq, joined with newlines. A mask without a comma
    makes hex_to_dec fail, which ends the report with that error.
   */
  method ShowNetAffinity(t: Topology, table: InterruptTable, smpAffinity: nat -> string) returns (r: Result<string>)
    requires HexMasks(smpAffinity)
    ensures r.Err? <==> !Decodable(Entries(table), smpAffinity)
    ensures r.Ok? ==> r.value == Join([Header()] + Rows(t, Entries(table), smpAffinity), "\n")
  {
    var report := [Header()];
    var i := 0;
    while i < |table|
      invariant 0 <= i <= |table|
      invariant Decodable(Entries(table[..i]), smpAffinity)
      invariant report == [Header()] + Rows(t, Entries(table[..i]), smpAffinity)
    {
      var res := ReportInterface(t, table[i], smpAffinity, report);
      if res.Err? {
        MissingComma(table, i, smpAffinity);
        return Err(res.error);
      }
      ReportStep(t, table, i, smpAffinity, [Header()], report);
      report := res.value;
      i := i + 1;
    }
    assert table[..|table|] == table;
    r := Ok(Join(report, "\n"));
  }
}
