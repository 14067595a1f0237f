# dhcp-dnsmasq configuration emitter, in Dafny

The tool reads a TOML description of a DHCP site. The description holds a `dhcp_config` table
(the output path `conf` and the DNS `port`) and a list of `interfaces`. Each interface has a
`name`, a `bind_interfaces` flag, a `dhcp_range` and its `static_leases`, which are MAC/IP pairs.
From this the tool writes a dnsmasq configuration file. This project models the part that
decides what that file says: `generate_dnsmasq_conf`. It also proves what the file looks like
for every input.

The file layout:

- `config.dfy`, module `ConfigModel`: the four records as datatypes (`Config`, `DhcpConfig`,
  `Interface`, `StaticLease`). It also has the predicates `LeaseAvoids`, `InterfaceAvoids` and
  `ValuesAvoid`, which say that no copied value contains a given character.
- `decimal.dfy`, module `Decimal`: `NatToDecimal`, which renders the port as Rust's `{}`
  formatting writes an unsigned integer. Its partner `DecimalValue` reads a numeral back, and the
  module proves both round trips.
- `text_lines.dfy`, module `TextLines`: `JoinLines` ends each line with a line feed, and
  `SplitLines` cuts a text at its line feeds. The module proves both round trips and counts the
  line feeds.
- `dnsmasq_conf.dfy`, module `DnsmasqConf`: the emitter, in three parts.
  - The directive texts: `port=<N>`, `interface=<name>`, `bind-interfaces`,
    `dhcp-range=<range>` and `dhcp-host=<mac>,<ip>`.
  - The output described in two ways. The text view (`LeaseText`, `BlockHead`, `Block`,
    `Blocks`, `Emit`) follows the appends in the source. The line view (`LeaseLines`,
    `HeadLines`, `BlockLines`, `BlocksLines`, `EmitLines`) lists the directives, one per line.
  - `GenerateDnsmasqConf`, the imperative emitter. Like the Rust, it starts from an empty string
    and appends one formatted line at a time in two nested loops. Its loop invariants prove that
    it returns exactly `Emit(config)`.
- `dnsmasq_conf_properties.dfy`, module `DnsmasqConfProperties`: what the file looks like. It
  proves that the two views agree. It proves the properties of the port line, of the blocks and of
  the lines inside a block, and it counts lines, blank lines and carriage returns.
- `seqs.dfy`, module `Seqs`: small sequence facts that the proofs use.

Some properties are about lines. These assume that no copied value (interface name, range, MAC,
IP) contains a line feed. The emitter never checks this. So the assumption is a `requires` on
each of those lemmas, and the emitter has no validation step. One may read the input schema as
forbidding empty names or names with embedded line feeds. The code enforces neither, and the
model follows the code.

## Model

| member | source | states |
|---|---|---|
| `DnsmasqConf.GenerateDnsmasqConf` | src/main.rs:37-55 | Appending the port line, then each interface's lines and the lease lines in nested loops, yields exactly `Emit(config)` |
| `DnsmasqConf.BlocksAppend` | src/main.rs:40-53 | The blocks of two concatenated interface lists are the two block texts concatenated. So each block depends only on its own interface, and blocks follow input order |
| `DnsmasqConf.LeaseTextAppend` | src/main.rs:46-51 | The lease lines of two concatenated lease lists are the two texts concatenated, so lease lines follow lease order |
| `Decimal.NatToDecimal` | src/main.rs:39 | The port is written as a canonical numeral: at least one digit, only digits, and no leading zero unless the port is 0 |
| `Decimal.DecimalRoundTrip` | src/main.rs:39 | Reading the written numeral back gives the port, for every port |
| `Decimal.CanonicalRoundTrip` | src/main.rs:39 | Every canonical numeral is the rendering of the number it denotes |
| `Decimal.NatToDecimalInjective` | src/main.rs:39 | Different ports are written differently |
| `DnsmasqConfProperties.PortLineFirst` | src/main.rs:39 | The file begins with `port=`, then the port's numeral, then a line feed. The first line's digits form a canonical numeral that reads back as the port |
| `DnsmasqConfProperties.PortZeroEmitted` | src/main.rs:39 | Port 0 is written as `port=0`, not left out |
| `DnsmasqConfProperties.EmptyInterfaces` | src/main.rs:38-40 | The file is exactly `port=<N>\n` if and only if there are no interfaces |
| `DnsmasqConfProperties.EmitIsJoinedLines` | src/main.rs:39-52 | The text is the port directive and then every block's directives, each ended by a single line feed |
| `DnsmasqConfProperties.LinesOfEmit` | src/main.rs:39-52 | If no value holds a line feed, splitting the file at line feeds gives exactly those directive lines |
| `DnsmasqConfProperties.BlockAt` | src/main.rs:40-53 | The `i`-th interface's block sits after the blocks of the earlier interfaces and before those of the later ones |
| `DnsmasqConfProperties.BlockLinesAt` | src/main.rs:40-53 | In the file's lines, the `i`-th block's lines form one contiguous run. The run starts after the port line and the earlier blocks' lines |
| `DnsmasqConfProperties.BlockEndsWithSeparator` | src/main.rs:52 | Every block ends with its last directive's line feed followed by the separator line feed |
| `DnsmasqConfProperties.TrailingSeparator` | src/main.rs:52-54 | The file ends in `\n\n` if and only if there is at least one interface |
| `DnsmasqConfProperties.BlockLayout` | src/main.rs:41-52 | A block's lines are, in order: `interface=<name>`, `bind-interfaces` if the flag is set, `dhcp-range=<range>`, then one `dhcp-host=<mac>,<ip>` per lease, contiguous and in order. The last line is empty, and it is the block's only empty line. Values are copied verbatim |
| `DnsmasqConfProperties.BindLineIff` | src/main.rs:42-44 | A block has the line `bind-interfaces` if and only if the interface's flag is set |
| `DnsmasqConfProperties.LineKinds` | src/main.rs:39-52 | Only the first line is a `port` directive. Every other line is empty, `bind-interfaces`, or an `interface`, `dhcp-range` or `dhcp-host` directive. No `bind-interfaces=false` line ever appears |
| `DnsmasqConfProperties.BlockLineTally` | src/main.rs:41-52 | A block holds 3 + (number of leases) + (1 if bound) line feeds |
| `DnsmasqConfProperties.LineCount` | src/main.rs:39-52 | The file has 1 + Σ(3 + leases + bind) line feeds and splits into that many lines |
| `DnsmasqConfProperties.BlankLinePerInterface` | src/main.rs:52 | The file has exactly one empty line per interface |
| `DnsmasqConfProperties.NoCarriageReturn` | src/main.rs:39-52 | If no value holds a carriage return, the file holds none: lines end with a bare line feed |

## Left out

- `install_dnsmasq` (src/main.rs:9-33) runs `sudo apt-get update` and `sudo apt-get install -y
  dnsmasq` as subprocesses and checks their exit statuses. This is a process boundary with no
  logic of its own to model.
- `write_dnsmasq_conf` (src/main.rs:34-36) is one whole-file write, which is filesystem I/O.
- `main` (src/main.rs:56-67) reads the input from a fixed path, deserialises it and unwraps every
  error. This is I/O and panicking glue. Because of it, the model has no error taxonomy, no atomic
  replace and no CLI.
- TOML deserialisation (the `Deserialize` derives in src/config.rs) belongs to a library whose
  rules are not part of this model. The model starts from the records already built. The schema
  sometimes lets `static_leases` be omitted, but the record type has no default for it. That
  question belongs to deserialisation and is not modelled.
- `DhcpConfig.port` is a `usize` in the source and a `nat` here. The emitter only prints it and
  never computes with it, so the width cannot change any output.
- Rust strings are UTF-8 bytes, while the model's strings are sequences of characters. Lengths
  measured in bytes are not modelled. Line feeds, carriage returns, lines and their order are the
  same in both.
- The growing `String` buffer is a local value that the method reassigns. Capacity and
  reallocation are not modelled.
- Determinism and purity of the emitter are not stated as lemmas. They hold because `Emit` is a
  Dafny function and `GenerateDnsmasqConf` modifies nothing.
