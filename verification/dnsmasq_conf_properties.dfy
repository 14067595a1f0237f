/** What the emitted configuration file looks like, stated about the text that
    `DnsmasqConf.Emit` produces. Properties about lines assume that no value copied
    into the file contains a line feed; the emitter itself never checks this. */
module DnsmasqConfProperties {
  import opened ConfigModel
  import opened Decimal
  import opened TextLines
  import opened DnsmasqConf
  import opened Seqs

  // ---------------------------------------------------------------------------
  // The text view and the line view describe the same file.
  // ---------------------------------------------------------------------------

  lemma JoinSingle(d: string)
    ensures JoinLines([d]) == Line(d)
  {
    assert [d][1..] == [];
  }

  lemma {:induction false} LeaseTextIsJoined(leases: seq<StaticLease>)
    ensures LeaseText(leases) == JoinLines(LeaseLines(leases))
  {
    if leases != [] {
      LeaseTextIsJoined(leases[1..]);
      assert LeaseLines(leases)[1..] == LeaseLines(leases[1..]);
    }
  }

  lemma HeadIsJoined(iface: Interface)
    ensures BlockHead(iface) == JoinLines(HeadLines(iface))
  {
    var first := [InterfaceDirective(iface)];
    var bind := if iface.bindInterfaces then [BindDirective] else [];
    JoinSingle(InterfaceDirective(iface));
    JoinSingle(BindDirective);
    JoinSingle(RangeDirective(iface));
    JoinLinesAppend(first, bind);
    JoinLinesAppend(first + bind, [RangeDirective(iface)]);
  }

  lemma BlockIsJoined(iface: Interface)
    ensures Block(iface) == JoinLines(BlockLines(iface))
  {
    var head, leases := HeadLines(iface), LeaseLines(iface.staticLeases);
    HeadIsJoined(iface);
    LeaseTextIsJoined(iface.staticLeases);
    JoinSingle("");
    JoinLinesAppend(head, leases);
    JoinLinesAppend(head + leases, [""]);
  }

  lemma {:induction false} BlocksAreJoined(ifs: seq<Interface>)
    ensures Blocks(ifs) == JoinLines(BlocksLines(ifs))
  {
    if ifs != [] {
      BlockIsJoined(ifs[0]);
      BlocksAreJoined(ifs[1..]);
      JoinLinesAppend(BlockLines(ifs[0]), BlocksLines(ifs[1..]));
    }
  }

  /** The emitted text is exactly the directive lines of `EmitLines`, each ended by
      a line feed: the port line, then every interface's block lines in order. */
  lemma EmitIsJoinedLines(c: Config)
    ensures Emit(c) == JoinLines(EmitLines(c))
  {
    JoinSingle(PortDirective(c.dhcpConfig.port));
    BlocksAreJoined(c.interfaces);
    JoinLinesAppend([PortDirective(c.dhcpConfig.port)], BlocksLines(c.interfaces));
  }

  lemma BlockLinesAvoid(iface: Interface, ch: char)
    requires ch < ' ' && InterfaceAvoids(iface, ch)
    ensures LinesAvoid(BlockLines(iface), ch)
  {
    var ls := BlockLines(iface);
    forall k | 0 <= k < |ls| ensures ch !in ls[k] {
      var h := if iface.bindInterfaces then 2 else 1;
      if h < k < |ls| - 1 {
        assert ls[k] == HostDirective(iface.staticLeases[k - h - 1]);
        assert LeaseAvoids(iface.staticLeases[k - h - 1], ch);
      }
    }
  }

  lemma {:induction false} BlocksLinesAvoid(ifs: seq<Interface>, ch: char)
    requires ch < ' '
    requires forall k :: 0 <= k < |ifs| ==> InterfaceAvoids(ifs[k], ch)
    ensures LinesAvoid(BlocksLines(ifs), ch)
  {
    if ifs != [] {
      BlockLinesAvoid(ifs[0], ch);
      BlocksLinesAvoid(ifs[1..], ch);
      var a, b := BlockLines(ifs[0]), BlocksLines(ifs[1..]);
      assert forall k :: 0 <= k < |a + b| ==> (a + b)[k] == if k < |a| then a[k] else b[k - |a|];
    }
  }

  /** A control character that no copied value contains occurs in no line of the file. */
  lemma EmitLinesAvoid(c: Config, ch: char)
    requires ch < ' ' && ValuesAvoid(c, ch)
    ensures LinesAvoid(EmitLines(c), ch)
  {
    BlocksLinesAvoid(c.interfaces, ch);
  }

  /** Splitting the emitted file into lines gives back the directive lines. */
  lemma LinesOfEmit(c: Config)
    requires ValuesAvoid(c, '\n')
    ensures SplitLines(Emit(c)) == EmitLines(c)
  {
    EmitIsJoinedLines(c);
    EmitLinesAvoid(c, '\n');
    SplitJoin(EmitLines(c));
  }

  lemma LinesOfBlock(iface: Interface)
    requires InterfaceAvoids(iface, '\n')
    ensures SplitLines(Block(iface)) == BlockLines(iface)
  {
    BlockIsJoined(iface);
    BlockLinesAvoid(iface, '\n');
    SplitJoin(BlockLines(iface));
  }

  // ---------------------------------------------------------------------------
  // The global port line.
  // ---------------------------------------------------------------------------

  /** The file opens with the line `port=<N>`, where `<N>` is the canonical decimal
      numeral that reads back as the configured port. */
  lemma PortLineFirst(c: Config)
    ensures var s, d := Emit(c), NatToDecimal(c.dhcpConfig.port);
      "port=" + d + "\n" <= s && FirstNewline(s) == 5 + |d|
      && IsCanonical(s[5..FirstNewline(s)]) && DecimalValue(s[5..FirstNewline(s)]) == c.dhcpConfig.port
  {
    var s, d := Emit(c), NatToDecimal(c.dhcpConfig.port);
    assert s == ("port=" + d) + "\n" + Blocks(c.interfaces);
    assert '\n' !in "port=" + d;
    FirstNewlineAfterLine("port=" + d, Blocks(c.interfaces));
    assert s[5..5 + |d|] == d;
    DecimalRoundTrip(c.dhcpConfig.port);
  }

  /** Port 0 is written like any other port, not left out. */
  lemma PortZeroEmitted(c: Config)
    requires c.dhcpConfig.port == 0
    ensures "port=0\n" <= Emit(c)
  {
    assert NatToDecimal(0) == "0";
  }

  /** With no interfaces the file is the port line alone; with any, it is longer. */
  lemma EmptyInterfaces(c: Config)
    ensures c.interfaces == [] <==> Emit(c) == "port=" + NatToDecimal(c.dhcpConfig.port) + "\n"
  {
    if c.interfaces != [] {
      assert |Blocks(c.interfaces)| >= |Block(c.interfaces[0])| > 0;
    }
  }

  // ---------------------------------------------------------------------------
  // Blocks: order, position and separator.
  // ---------------------------------------------------------------------------

  lemma BlocksAround(ifs: seq<Interface>, i: nat)
    requires i < |ifs|
    ensures Blocks(ifs) == Blocks(ifs[..i]) + (Block(ifs[i]) + Blocks(ifs[i + 1..]))
  {
    Around(ifs, i);
    BlocksAppend(ifs[..i], ifs[i..]);
    BlocksAppend([ifs[i]], ifs[i + 1..]);
    assert [ifs[i]][1..] == [];
  }

  /** The block of the `i`-th interface sits between the blocks of the interfaces
      before it and those after it; it depends on that interface alone. */
  lemma BlockAt(c: Config, i: nat)
    requires i < |c.interfaces|
    ensures var ifs := c.interfaces;
      Emit(c) == "port=" + NatToDecimal(c.dhcpConfig.port) + "\n"
                 + Blocks(ifs[..i]) + Block(ifs[i]) + Blocks(ifs[i + 1..])
  {
    var ifs := c.interfaces;
    BlocksAround(ifs, i);
    var p, a, b, z := Line(PortDirective(c.dhcpConfig.port)), Blocks(ifs[..i]), Block(ifs[i]), Blocks(ifs[i + 1..]);
    calc {
      Emit(c);
      p + (a + (b + z));
      { AppendAssoc(a, b, z); AppendAssoc(p, a + b, z); AppendAssoc(p, a, b); }
      p + a + b + z;
    }
  }

  lemma {:induction false} LeaseTextEndsWithNewline(leases: seq<StaticLease>)
    ensures var s := LeaseText(leases); s == [] || s[|s| - 1] == '\n'
  {
    if leases != [] {
      LeaseTextEndsWithNewline(leases[1..]);
    }
  }

  /** Every block ends with an empty separator line after its last directive. */
  lemma BlockEndsWithSeparator(iface: Interface)
    ensures var s := Block(iface); |s| >= 2 && s[|s| - 2..] == "\n\n"
  {
    LeaseTextEndsWithNewline(iface.staticLeases);
    var body := BlockHead(iface) + LeaseText(iface.staticLeases);
    assert body[|body| - 1] == '\n';
    var s := Block(iface);
    assert s == body + "\n";
    assert s[|s| - 2..] == [s[|s| - 2], s[|s| - 1]];
  }

  lemma {:induction false} BlocksEndWithSeparator(ifs: seq<Interface>)
    requires ifs != []
    ensures var s := Blocks(ifs); |s| >= 2 && s[|s| - 2..] == "\n\n"
  {
    var b, rest := Block(ifs[0]), Blocks(ifs[1..]);
    if ifs[1..] == [] {
      BlockEndsWithSeparator(ifs[0]);
      assert Blocks(ifs) == b;
    } else {
      BlocksEndWithSeparator(ifs[1..]);
      assert (b + rest)[|b + rest| - 2..] == rest[|rest| - 2..];
    }
  }

  /** The file ends in an empty line exactly when there is at least one interface:
      the last block keeps its separator, and the port line alone has none. */
  lemma TrailingSeparator(c: Config)
    ensures var s := Emit(c); c.interfaces != [] <==> (|s| >= 2 && s[|s| - 2..] == "\n\n")
  {
    var s := Emit(c);
    var p := "port=" + NatToDecimal(c.dhcpConfig.port) + "\n";
    if c.interfaces == [] {
      var d := NatToDecimal(c.dhcpConfig.port);
      assert s == p;
      assert s[|s| - 2] == d[|d| - 1];
      assert IsDigit(d[|d| - 1]);
    } else {
      BlocksEndWithSeparator(c.interfaces);
      var rest := Blocks(c.interfaces);
      assert s == p + rest;
      assert s[|s| - 2..] == rest[|rest| - 2..];
    }
  }

  // ---------------------------------------------------------------------------
  // The lines of a block.
  // ---------------------------------------------------------------------------

  lemma BlockLinesLayout(iface: Interface)
    ensures var ls, leases := BlockLines(iface), iface.staticLeases;
      var h := if iface.bindInterfaces then 3 else 2;
      |ls| == h + |leases| + 1
      && ls[0] == "interface=" + iface.name
      && (iface.bindInterfaces ==> ls[1] == "bind-interfaces")
      && ls[h - 1] == "dhcp-range=" + iface.dhcpRange
      && (forall j :: 0 <= j < |leases| ==> ls[h + j] == "dhcp-host=" + leases[j].mac + "," + leases[j].ip)
      && ls[|ls| - 1] == ""
      && (forall k :: 0 <= k < |ls| - 1 ==> ls[k] != "")
  {
    var head, leases := HeadLines(iface), LeaseLines(iface.staticLeases);
    var ls := BlockLines(iface);
    assert forall k :: 0 <= k < |head| ==> ls[k] == head[k];
    assert forall j :: 0 <= j < |leases| ==> ls[|head| + j] == leases[j];
  }

  /** The lines of a block, in order: `interface=<name>`, `bind-interfaces` when the
      flag is set, `dhcp-range=<range>`, one `dhcp-host=<mac>,<ip>` per lease in
      lease order and contiguous, then the one and only empty line. */
  lemma BlockLayout(iface: Interface)
    requires InterfaceAvoids(iface, '\n')
    ensures var ls, leases := SplitLines(Block(iface)), iface.staticLeases;
      var h := if iface.bindInterfaces then 3 else 2;
      |ls| == h + |leases| + 1
      && ls[0] == "interface=" + iface.name
      && (iface.bindInterfaces ==> ls[1] == "bind-interfaces")
      && ls[h - 1] == "dhcp-range=" + iface.dhcpRange
      && (forall j :: 0 <= j < |leases| ==> ls[h + j] == "dhcp-host=" + leases[j].mac + "," + leases[j].ip)
      && ls[|ls| - 1] == ""
      && (forall k :: 0 <= k < |ls| - 1 ==> ls[k] != "")
  {
    LinesOfBlock(iface);
    BlockLinesLayout(iface);
  }

  lemma BindInBlockLines(iface: Interface)
    ensures BindDirective in BlockLines(iface) <==> iface.bindInterfaces
  {
    var ls := BlockLines(iface);
    if !iface.bindInterfaces {
      forall k | 0 <= k < |ls| ensures ls[k] != BindDirective {
        if k == 0 {
          assert ls[k][0] == 'i';
        } else if k == 1 {
          assert ls[k][0] == 'd';
        } else if k < |ls| - 1 {
          assert ls[k] == HostDirective(iface.staticLeases[k - 2]);
          assert ls[k][0] == 'd';
        }
      }
    }
  }

  /** A block holds the line `bind-interfaces` if and only if the interface's flag
      is set; a cleared flag leaves no trace in the block. */
  lemma BindLineIff(iface: Interface)
    requires InterfaceAvoids(iface, '\n')
    ensures BindDirective in SplitLines(Block(iface)) <==> iface.bindInterfaces
  {
    LinesOfBlock(iface);
    BindInBlockLines(iface);
  }

  /** The number of lines of a block: three fixed ones, the optional bind line and
      one per lease. */
  lemma BlockLineTally(iface: Interface)
    requires InterfaceAvoids(iface, '\n')
    ensures multiset(Block(iface))['\n'] == BlockLineCount(iface)
  {
    BlockIsJoined(iface);
    BlockLinesAvoid(iface, '\n');
    JoinLinesNewlineCount(BlockLines(iface));
  }

  // ---------------------------------------------------------------------------
  // The lines of the whole file.
  // ---------------------------------------------------------------------------

  lemma {:induction false} BlocksLinesAppend(a: seq<Interface>, b: seq<Interface>)
    ensures BlocksLines(a + b) == BlocksLines(a) + BlocksLines(b)
  {
    if a == [] {
      assert a + b == b;
    } else {
      assert (a + b)[0] == a[0];
      assert (a + b)[1..] == a[1..] + b;
      BlocksLinesAppend(a[1..], b);
    }
  }

  lemma {:induction false} BlocksLinesLength(ifs: seq<Interface>)
    ensures |BlocksLines(ifs)| == LineTotal(ifs)
  {
    if ifs != [] {
      BlocksLinesLength(ifs[1..]);
    }
  }

  /** The file has one line per directive: the port line plus, for every
      interface, three fixed lines, the bind line if set and one line per lease.
      Counted as line feeds in the text, and as lines after splitting. */
  lemma LineCount(c: Config)
    requires ValuesAvoid(c, '\n')
    ensures multiset(Emit(c))['\n'] == 1 + LineTotal(c.interfaces)
    ensures |SplitLines(Emit(c))| == 1 + LineTotal(c.interfaces)
  {
    EmitIsJoinedLines(c);
    EmitLinesAvoid(c, '\n');
    JoinLinesNewlineCount(EmitLines(c));
    BlocksLinesLength(c.interfaces);
    LinesOfEmit(c);
  }

  /** Line terminators are single line feeds: unless a copied value brings one
      in, the file contains no carriage return. */
  lemma NoCarriageReturn(c: Config)
    requires ValuesAvoid(c, '\r')
    ensures '\r' !in Emit(c)
  {
    EmitIsJoinedLines(c);
    EmitLinesAvoid(c, '\r');
    JoinLinesAvoid(EmitLines(c), '\r');
  }

  lemma BlocksLinesAround(ifs: seq<Interface>, i: nat)
    requires i < |ifs|
    ensures BlocksLines(ifs) == BlocksLines(ifs[..i]) + (BlockLines(ifs[i]) + BlocksLines(ifs[i + 1..]))
  {
    Around(ifs, i);
    BlocksLinesAppend(ifs[..i], ifs[i..]);
    BlocksLinesAppend([ifs[i]], ifs[i + 1..]);
    assert [ifs[i]][1..] == [];
  }

  /** The lines of the `i`-th interface's block appear in the file as one run,
      right after the port line and the lines of the interfaces before it. */
  lemma BlockLinesAt(c: Config, i: nat)
    requires ValuesAvoid(c, '\n') && i < |c.interfaces|
    ensures var ls, ifs := SplitLines(Emit(c)), c.interfaces;
      var start := 1 + LineTotal(ifs[..i]);
      start + BlockLineCount(ifs[i]) <= |ls|
      && ls[start..start + BlockLineCount(ifs[i])] == SplitLines(Block(ifs[i]))
  {
    var ifs := c.interfaces;
    LinesOfEmit(c);
    LinesOfBlock(ifs[i]);
    EmitLinesAround(c, i);
    MiddlePart([PortDirective(c.dhcpConfig.port)] + BlocksLines(ifs[..i]), BlockLines(ifs[i]), BlocksLines(ifs[i + 1..]));
  }

  lemma EmitLinesAround(c: Config, i: nat)
    requires i < |c.interfaces|
    ensures var ifs := c.interfaces;
      var before := [PortDirective(c.dhcpConfig.port)] + BlocksLines(ifs[..i]);
      EmitLines(c) == before + (BlockLines(ifs[i]) + BlocksLines(ifs[i + 1..]))
      && |before| == 1 + LineTotal(ifs[..i])
  {
    var ifs := c.interfaces;
    BlocksLinesAround(ifs, i);
    BlocksLinesLength(ifs[..i]);
    AppendAssoc([PortDirective(c.dhcpConfig.port)], BlocksLines(ifs[..i]), BlockLines(ifs[i]) + BlocksLines(ifs[i + 1..]));
  }

  /** The directive keywords a line inside a block can begin with. */
  predicate BlockLine(l: string)
  {
    l == "" || l == "bind-interfaces" || "interface=" <= l || "dhcp-range=" <= l || "dhcp-host=" <= l
  }

  lemma BlockLinesKinds(iface: Interface)
    ensures forall k :: 0 <= k < |BlockLines(iface)| ==> BlockLine(BlockLines(iface)[k])
  {
    var ls := BlockLines(iface);
    var h := if iface.bindInterfaces then 2 else 1;
    forall k | 0 <= k < |ls| ensures BlockLine(ls[k]) {
      if k == 0 {
        PrefixOfAppend("interface=", iface.name);
      } else if k == h {
        PrefixOfAppend("dhcp-range=", iface.dhcpRange);
      } else if h < k < |ls| - 1 {
        var lease := iface.staticLeases[k - h - 1];
        assert ls[k] == HostDirective(lease);
        PrefixOfAppend("dhcp-host=", lease.mac + "," + lease.ip);
        assert HostDirective(lease) == "dhcp-host=" + (lease.mac + "," + lease.ip);
      }
    }
  }

  lemma PrefixOfAppend(a: string, b: string)
    ensures a <= a + b
  {
    assert (a + b)[..|a|] == a;
  }

  lemma {:induction false} BlocksLinesKinds(ifs: seq<Interface>)
    ensures forall k :: 0 <= k < |BlocksLines(ifs)| ==> BlockLine(BlocksLines(ifs)[k])
  {
    if ifs != [] {
      BlocksLinesKinds(ifs[1..]);
      BlockLinesKinds(ifs[0]);
      var a, b := BlockLines(ifs[0]), BlocksLines(ifs[1..]);
      assert forall k :: 0 <= k < |a + b| ==> (a + b)[k] == if k < |a| then a[k] else b[k - |a|];
    }
  }

  /** Neither a block line nor a port line reads `bind-interfaces=false`. */
  lemma BindFalseIsNoDirective()
    ensures !BlockLine("bind-interfaces=false") && !("port=" <= "bind-interfaces=false")
  {
    var t := "bind-interfaces=false";
    assert t[0] == 'b' && |t| == 21;
    FirstCharDiffers("port=", t);
    FirstCharDiffers("interface=", t);
    FirstCharDiffers("dhcp-range=", t);
    FirstCharDiffers("dhcp-host=", t);
  }

  lemma FirstCharDiffers(p: string, t: string)
    requires |p| > 0 && |t| > 0 && p[0] != t[0]
    ensures !(p <= t)
  {
  }

  /** No line inside a block can be taken for a `port` directive. */
  lemma BlockLineIsNoPort(l: string)
    requires BlockLine(l)
    ensures !("port=" <= l)
  {
    if l != "" {
      var first := if l == "bind-interfaces" then 'b' else if "interface=" <= l then 'i' else 'd';
      assert l[0] == first by {
        if l != "bind-interfaces" && "interface=" <= l { assert l[..10][0] == 'i'; }
        if l != "bind-interfaces" && !("interface=" <= l) && "dhcp-range=" <= l { assert l[..11][0] == 'd'; }
        if l != "bind-interfaces" && !("interface=" <= l) && !("dhcp-range=" <= l) { assert l[..10][0] == 'd'; }
      }
      FirstCharDiffers("port=", l);
    }
  }

  lemma EmitLinesKinds(c: Config)
    ensures var ls := EmitLines(c);
      "port=" <= ls[0] && forall k :: 1 <= k < |ls| ==> BlockLine(ls[k]) && !("port=" <= ls[k])
  {
    BlocksLinesKinds(c.interfaces);
    var ls := EmitLines(c);
    forall k | 1 <= k < |ls| ensures BlockLine(ls[k]) && !("port=" <= ls[k]) {
      assert ls[k] == BlocksLines(c.interfaces)[k - 1];
      BlockLineIsNoPort(ls[k]);
    }
  }

  /** Only the first line of the file is a `port` directive; every other line is
      empty, `bind-interfaces`, or an `interface`, `dhcp-range` or `dhcp-host`
      directive. In particular no `bind-interfaces=false` line is ever written. */
  lemma LineKinds(c: Config)
    requires ValuesAvoid(c, '\n')
    ensures var ls := SplitLines(Emit(c));
      |ls| > 0 && "port=" <= ls[0]
      && (forall k :: 1 <= k < |ls| ==> BlockLine(ls[k]) && !("port=" <= ls[k]))
      && "bind-interfaces=false" !in ls
  {
    LinesOfEmit(c);
    EmitLinesKinds(c);
    BindFalseIsNoDirective();
    var ls := EmitLines(c);
    forall k | 0 <= k < |ls| ensures ls[k] != "bind-interfaces=false" {
    }
  }

  lemma {:induction false} BlocksLinesBlanks(ifs: seq<Interface>)
    requires forall k :: 0 <= k < |ifs| ==> InterfaceAvoids(ifs[k], '\n')
    ensures multiset(BlocksLines(ifs))[""] == |ifs|
  {
    if ifs != [] {
      BlocksLinesBlanks(ifs[1..]);
      var a := BlockLines(ifs[0]);
      var leases := LeaseLines(ifs[0].staticLeases);
      assert "" !in leases;
      assert multiset(a)[""] == 1;
    }
  }

  /** The file holds exactly one empty line per interface: each block's separator,
      the last block's included, and nothing else. */
  lemma BlankLinePerInterface(c: Config)
    requires ValuesAvoid(c, '\n')
    ensures multiset(SplitLines(Emit(c)))[""] == |c.interfaces|
  {
    LinesOfEmit(c);
    BlocksLinesBlanks(c.interfaces);
    assert multiset(EmitLines(c)) == multiset([PortDirective(c.dhcpConfig.port)]) + multiset(BlocksLines(c.interfaces));
  }

}
