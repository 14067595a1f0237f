/** The dnsmasq configuration emitter: the text a `Config` turns into. */
module DnsmasqConf {
  import opened ConfigModel
  import opened Decimal
  import opened TextLines
  import opened Seqs

  // ---------------------------------------------------------------------------
  // Directives, each without its line terminator. Values are copied verbatim.
  // ---------------------------------------------------------------------------

  function PortDirective(port: nat): string
  {
    "port=" + NatToDecimal(port)
  }

  const BindDirective: string := "bind-interfaces"

  function InterfaceDirective(iface: Interface): string
  {
    "interface=" + iface.name
  }

  function RangeDirective(iface: Interface): string
  {
    "dhcp-range=" + iface.dhcpRange
  }

  function HostDirective(lease: StaticLease): string
  {
    "dhcp-host=" + lease.mac + "," + lease.ip
  }

  // ---------------------------------------------------------------------------
  // Text view: the file as the emitter appends it, line by line.
  // ---------------------------------------------------------------------------

  /** A directive with its line terminator. */
  function Line(directive: string): string
  {
    directive + "\n"
  }

  /** The `dhcp-host` lines of a block, one per lease, in order. */
  function LeaseText(leases: seq<StaticLease>): string
  {
    if leases == [] then "" else Line(HostDirective(leases[0])) + LeaseText(leases[1..])
  }

  /** The lines of a block that come before its leases. */
  function BlockHead(iface: Interface): string
  {
    Line(InterfaceDirective(iface))
    + (if iface.bindInterfaces then Line(BindDirective) else "")
    + Line(RangeDirective(iface))
  }

  /** The block of one interface, closed by an empty separator line. */
  function Block(iface: Interface): string
  {
    BlockHead(iface) + LeaseText(iface.staticLeases) + "\n"
  }

  /** The blocks of all interfaces, in input order. */
  function Blocks(ifs: seq<Interface>): string
  {
    if ifs == [] then "" else Block(ifs[0]) + Blocks(ifs[1..])
  }

  /** The whole file: the global `port` line, then one block per interface. */
  function Emit(c: Config): string
  {
    Line(PortDirective(c.dhcpConfig.port)) + Blocks(c.interfaces)
  }

  lemma {:induction false} LeaseTextAppend(a: seq<StaticLease>, b: seq<StaticLease>)
    ensures LeaseText(a + b) == LeaseText(a) + LeaseText(b)
  {
    if a == [] {
      assert a + b == b;
    } else {
      assert (a + b)[0] == a[0];
      assert (a + b)[1..] == a[1..] + b;
      LeaseTextAppend(a[1..], b);
    }
  }

  /** The text of a list of interfaces is the text of its parts: each block
      depends on its own interface only, and blocks keep the input order. */
  lemma {:induction false} BlocksAppend(a: seq<Interface>, b: seq<Interface>)
    ensures Blocks(a + b) == Blocks(a) + Blocks(b)
  {
    if a == [] {
      assert a + b == b;
    } else {
      assert (a + b)[0] == a[0];
      assert (a + b)[1..] == a[1..] + b;
      BlocksAppend(a[1..], b);
    }
  }

  // ---------------------------------------------------------------------------
  // Line view: the same file as a list of directives, one per line.
  // ---------------------------------------------------------------------------

  function LeaseLines(leases: seq<StaticLease>): seq<string>
  {
    seq(|leases|, k requires 0 <= k < |leases| => HostDirective(leases[k]))
  }

  function HeadLines(iface: Interface): seq<string>
  {
    [InterfaceDirective(iface)]
    + (if iface.bindInterfaces then [BindDirective] else [])
    + [RangeDirective(iface)]
  }

  function BlockLines(iface: Interface): seq<string>
  {
    HeadLines(iface) + LeaseLines(iface.staticLeases) + [""]
  }

  function BlocksLines(ifs: seq<Interface>): seq<string>
  {
    if ifs == [] then [] else BlockLines(ifs[0]) + BlocksLines(ifs[1..])
  }

  function EmitLines(c: Config): seq<string>
  {
    [PortDirective(c.dhcpConfig.port)] + BlocksLines(c.interfaces)
  }

  /** Lines a block is made of: the three fixed ones, the optional bind line and
      one per lease. */
  function BlockLineCount(iface: Interface): nat
  {
    3 + |iface.staticLeases| + (if iface.bindInterfaces then 1 else 0)
  }

  function LineTotal(ifs: seq<Interface>): nat
  {
    if ifs == [] then 0 else BlockLineCount(ifs[0]) + LineTotal(ifs[1..])
  }

  // ---------------------------------------------------------------------------
  // The emitter itself: the string grows by appends, in two nested loops.
  // ---------------------------------------------------------------------------

  /** Builds the configuration text by appending one formatted line at a time,
      and produces exactly the file `Emit` describes. */
  method GenerateDnsmasqConf(config: Config) returns (conf: string)
    ensures conf == Emit(config)
  {
    var port := config.dhcpConfig.port;
    var interfaces := config.interfaces;
    conf := "";
    conf := conf + Line(PortDirective(port));
    var i := 0;
    while i < |interfaces|
      invariant 0 <= i <= |interfaces|
      invariant conf == Line(PortDirective(port)) + Blocks(interfaces[..i])
    {
      var iface := interfaces[i];
      ghost var before := conf;
      conf := conf + Line(InterfaceDirective(iface));
      if iface.bindInterfaces {
        conf := conf + Line(BindDirective);
      }
      conf := conf + Line(RangeDirective(iface));
      ghost var head := conf;
      BlockHeadAppended(before, iface, head);
      var leases := iface.staticLeases;
      var j := 0;
      while j < |leases|
        invariant 0 <= j <= |leases|
        invariant conf == head + LeaseText(leases[..j])
      {
        var lease := leases[j];
        LeaseAppended(head, leases, j, conf);
        conf := conf + Line(HostDirective(lease));
        j := j + 1;
      }
      assert leases[..j] == leases;
      BlockAppended(Line(PortDirective(port)), interfaces, i, head, conf);
      conf := conf + "\n";
      i := i + 1;
    }
    assert interfaces[..i] == interfaces;
  }

  /** The head lines, appended one by one as the emitter does, form `BlockHead`. */
  lemma BlockHeadAppended(before: string, iface: Interface, head: string)
    requires head == before + Line(InterfaceDirective(iface))
                    + (if iface.bindInterfaces then Line(BindDirective) else "")
                    + Line(RangeDirective(iface))
    ensures head == before + BlockHead(iface)
  {
  }

  /** Appending the next lease line extends the lease text by one lease. */
  lemma LeaseAppended(head: string, leases: seq<StaticLease>, j: nat, conf: string)
    requires j < |leases|
    requires conf == head + LeaseText(leases[..j])
    ensures conf + Line(HostDirective(leases[j])) == head + LeaseText(leases[..j + 1])
  {
    var done, line := LeaseText(leases[..j]), Line(HostDirective(leases[j]));
    TakeOneMore(leases, j);
    LeaseTextAppend(leases[..j], [leases[j]]);
    assert [leases[j]][1..] == [];
    assert LeaseText([leases[j]]) == line;
    AppendAssoc(head, done, line);
  }

  /** Closing a block with its separator extends the text by one block. */
  lemma BlockAppended(portLine: string, ifs: seq<Interface>, i: nat, head: string, conf: string)
    requires i < |ifs|
    requires head == portLine + Blocks(ifs[..i]) + BlockHead(ifs[i])
    requires conf == head + LeaseText(ifs[i].staticLeases)
    ensures conf + "\n" == portLine + Blocks(ifs[..i + 1])
  {
    var done, h, l := Blocks(ifs[..i]), BlockHead(ifs[i]), LeaseText(ifs[i].staticLeases);
    BlocksStep(ifs, i);
    assert Blocks(ifs[..i + 1]) == done + (h + l + "\n");
    calc {
      conf + "\n";
      portLine + done + h + l + "\n";
      { AppendAssoc(portLine + done + h, l, "\n");
        AppendAssoc(portLine + done, h, l + "\n");
        AppendAssoc(h, l, "\n"); }
      portLine + done + (h + l + "\n");
      { AppendAssoc(portLine, done, h + l + "\n"); }
      portLine + (done + (h + l + "\n"));
    }
  }

  lemma BlocksStep(ifs: seq<Interface>, i: nat)
    requires i < |ifs|
    ensures Blocks(ifs[..i + 1]) == Blocks(ifs[..i]) + Block(ifs[i])
  {
    TakeOneMore(ifs, i);
    BlocksAppend(ifs[..i], [ifs[i]]);
    assert [ifs[i]][1..] == [];
  }
}
