# RustScan targets and scripts, in Dafny

This project models two parts of RustScan, the port scanner:

- **The target-address pipeline (`src/address.rs`).**
  - The user's tokens (IP literals, CIDR blocks, host names, or files of those) become the list of addresses to scan.
  - Tokens that yield nothing directly are read as files.
  - The exclusion specs become networks.
  - The list is filtered once: repeats are dropped, and so is every address an exclusion network contains.
- **The scripting engine's selection and command assembly (`src/scripts/mod.rs`).**
  - The `#` header of a script file is read into TOML text.
  - `parse_scripts` keeps the scripts whose header parses.
  - `init_scripts` chooses the scripts to run by mode and by tags.
  - `Script::run` builds the port string, checks the call format and picks the values the call format is filled with.

Files:

- `address.dfy` (module `Address`) models the pipeline.
- `scripts.dfy` (module `Scripts`) models the engine.
- `scenarios.dfy` (module `Scenarios`) states the behaviour the repository's unit tests check, as lemmas over any parser and lookup that give the answers each lemma's premises name. Where the parser's answer is in doubt (a bare address read by `IpCidr::from_str`), the premises admit both answers.
- `ipnet.dfy` (module `IpNet`) holds addresses and networks as numbers. A V4 address is a number below 2^32 and a V6 one below 2^128. A network is a base address with its host bits clear plus a prefix length. Containment compares the block numbers.
- `text.dfy` (module `Text`) holds the `str` operations the code relies on: `trim`, `split(char)`, `join`, `starts_with`, `contains`, `String::retain` and the decimal rendering of integers.
- `seqs.dfy` (module `Seqs`) holds `flat_map` and `filter` over sequences, and the first index of an element.
- `wrappers.dfy` holds `Option` and `Result`.

Some behaviour comes from the operating system and from other crates. The model takes it as values:

- `Address.Syntax`: the text parsers `IpAddr::from_str`, `IpInet::from_str` and `IpCidr::from_str`.
- `Address.Dns`: `ToSocketAddrs`, `Resolver::lookup_ip` and `Resolver::from_system_conf`.
- `Address.FileSystem` and `Scripts.ScriptEnv`: files, given as their lines; directories, given as their listings; the home directory; the decoded `.rustscan_scripts.toml`.
- `Scripts.ScriptEnv.parseHeader`: TOML decoding of a script header.

The imperative code keeps its loops:

- `parse_addresses` has its two passes over the tokens and its `retain` with a seen-set.
- `read_ips_from_file` and `resolve_ips_from_host` keep theirs.
- The header loop of `ScriptFile::new` keeps its `retain`, `trim`, `push` and `break`.
- `parse_scripts`, `init_scripts` and `run` keep theirs.

Each of these methods is proved equal to a specification function. The properties are proved as lemmas about those functions.

**The tag rule.** The module documentation of `src/scripts/mod.rs` (lines 42-43, and the comment at line 126) says every config tag must appear in a script for the script to be selected. The code at lines 130-132 tests the reverse: every tag of the script must be a config tag. The model follows the code (`Scripts.Selects`). `Scripts.TagRulesDiffer` shows the two rules disagree in both directions. `Scripts.TagRulesAgree` shows that both rules select a script exactly when the two tag sets are equal. They give the same answer exactly when the script is untagged, or when the two inclusions hold or fail together. Both reject, for instance, a script tagged `x` under the config tags `y`.

**The scripts directory.** The same module documentation (lines 34-36) says scripts are read from `home_dir/.rustscan_scripts`. The code at lines 114-120 reads the configured `directory`, or else the home directory itself, with no `.rustscan_scripts` appended. The model follows the code (`Scripts.ScriptsDir`).

## Model

| member | source | states |
|---|---|---|
| Address.ParseAddresses | src/address.rs:33-79 | returns the addresses and warnings of the specification `Targets`/`TargetWarnings`: direct addresses first, then file addresses, through the duplicate and exclusion filter |
| Address.ResolveTokens | src/address.rs:38-45 | the first pass: the concatenated addresses of every token, and the tokens that yielded none, in input order |
| Address.ReadUnresolved | src/address.rs:47-70 | the second pass: the addresses of every unresolved token that names a readable file, in order, and a warning for each token that is not a file or cannot be read |
| Address.RetainUnseenIncluded | src/address.rs:74-76 | the `retain` with a seen-set keeps the first occurrence of each address that no exclusion network contains |
| Address.TargetsProperties | src/address.rs:33-79 | the targets hold no address twice; an address is a target exactly when a token or a file yielded it and no exclusion contains it; targets keep their first-occurrence order |
| Address.RetainMembers | src/address.rs:76 | an address survives the filter exactly when it occurs in the input and no network contains it |
| Address.RetainNoDuplicates | src/address.rs:75-76 | the filtered list has no repeated address |
| Address.RetainFirstOccurrenceOrder | src/address.rs:75-76 | the filtered list lists its elements in the order of their first occurrences in the input |
| Address.RetainKeepsDistinct | src/address.rs:75-76 | a list without repeats and without excluded addresses passes the filter unchanged |
| Address.RetainDropsRepeats | src/address.rs:75-76 | addresses that occurred earlier add nothing to the filtered list |
| Address.UnresolvedExactly | src/address.rs:38-45 | a token goes to the file stage if and only if `parse_address` returned nothing for it; the file stage sees the tokens in input order |
| Address.DirectIpsInOrder | src/address.rs:38-45 | the direct addresses of two token lists are those of the first followed by those of the second; an address is direct exactly when some token yielded it |
| Address.WarningsExactly | src/address.rs:48-70 | a token is warned about exactly when it was unresolved and is not a file or cannot be opened; one token gives one warning when it fails and none otherwise, and warnings of consecutive token lists follow each other, so there is exactly one warning per failing token, in token order |
| Address.ReadIpsFromFile | src/address.rs:217-235 | fails exactly when the file cannot be opened; otherwise the concatenation of `parse_address` over the file's readable lines, in line order |
| Address.LinesIpsInOrder | src/address.rs:226-232 | file addresses come line after line; an address comes from a file exactly when `parse_address` of one of its readable lines yields it, and an unreadable line yields nothing |
| Address.ParseAddress | src/address.rs:94-110 | an IP, else a CIDR's network, else the `:80` answer, else the host lookups; a token yields nothing exactly when it is neither an IP nor a CIDR, its `:80` lookup fails and its host lookups find nothing |
| Address.HostAddresses | src/address.rs:113-125 | a host yields no address exactly when the OS lookup fails and the resolver finds nothing |
| Address.ResolveIpsFromHost | src/address.rs:113-125 | the OS lookup's addresses when it succeeds, else the resolver's answer, else nothing |
| Address.IpLiteralYieldsItself | src/address.rs:95-97 | a token that parses as an IP yields exactly that address |
| Address.CidrYieldsNetwork | src/address.rs:98-100 | a CIDR token `a/n` yields 2^(width-n) addresses, strictly ascending, exactly those that share the block of `a`, starting at the network address (host bits cleared) and ending at the broadcast address |
| Address.HostnameFallback | src/address.rs:101-108 | a token that is neither IP nor CIDR yields the first OS answer for `token:80`; when that lookup fails, the answers of `resolve_ips_from_host` |
| Address.ParseSingleExcludedAddress | src/address.rs:152-165 | a CIDR or an IP spec gives one network; any spec that is not a CIDR gives host networks only |
| Address.ParseExcludedNetworks | src/address.rs:140-149 | no list gives no network; a list gives the networks of its specs, spec after spec (its properties are stated by `Address.ExcludedExactly`) |
| Address.SingleExclusion | src/address.rs:152-165 | a CIDR spec excludes exactly its network; otherwise an IP spec excludes exactly itself; otherwise a host spec excludes exactly the addresses it resolves to |
| Address.ExcludedExactly | src/address.rs:140-149 | no spec list excludes nothing; otherwise an address is excluded exactly when some spec excludes it |
| Address.ExcludedFromExactly | src/address.rs:144-148 | an address is excluded by the concatenated networks exactly when one spec's networks exclude it |
| Address.HostNetworks | src/address.rs:161-164 | one host network per resolved address, in order |
| Address.ReadLines | src/address.rs:207-208 | `read_to_string(..)?.lines()` succeeds exactly when the file opens and every line is text, and then gives those lines |
| Address.ReadResolverFromFile | src/address.rs:206-213 | fails exactly when the file cannot be read as text lines; gives at most one IP per line (its value is stated by `Address.ResolverFileIps`) |
| Address.ResolverFileIps | src/address.rs:207-210 | a readable file gives the trimmed lines that parse as IPs, in line order; an address is listed exactly when some trimmed line parses to it |
| Address.ParseIpsProperties | src/address.rs:184-186 | the pieces that parse as IPs, in order; never more than the pieces; an address is kept exactly when some piece parses to it |
| Address.ResolverNameServers | src/address.rs:179-193 | one UDP name server on port 53 per resolver IP, in order; when the source is not a readable file, the IPs are what its comma-separated pieces parse to, and those pieces joined by `,` give back the source |
| Address.GetResolver | src/address.rs:177-202 | a resolver source gives a custom resolver; without one, the system configuration when it loads, else Cloudflare |
| IpNet.NetworkOf | src/address.rs:100 | `IpInet::network` clears the host bits: the network of the same length that contains the address and lies at or below it |
| IpNet.AddressesExactly | src/address.rs:100 | a network's address listing holds exactly the addresses the network contains |
| IpNet.AddressesAscending | src/address.rs:100 | the listing is strictly ascending |
| IpNet.SubnetIsPrefix | src/address.rs:100 | a longer prefix on the same base lists the first addresses of the shorter one |
| IpNet.HostNetworkContains | src/address.rs:158 | `IpCidr::new_host(ip)` contains `ip` and no other address |
| Text.Trim | src/address.rs:209 | `trim` is a slice of its input with only whitespace cut at both ends, and no whitespace left at either end |
| Text.JoinSplit | src/address.rs:184 | joining the pieces of a `split` with the separator gives back the string |
| Text.SplitJoin | src/scripts/mod.rs:231-236 | splitting a `join` whose parts lack the separator gives back the parts |
| Text.RemoveAll | src/scripts/mod.rs:354 | `retain(c != '#')` removes every `#` and keeps every other character |
| Text.RemoveAllAppend | src/scripts/mod.rs:354 | `retain` works character by character: the kept text of a concatenation is the kept text of each part in turn, so order and repeats are kept |
| Text.RemoveAllOne | src/scripts/mod.rs:354 | one character is dropped when it is `#` and kept otherwise |
| Text.DecimalRoundTrip | src/scripts/mod.rs:234 | the decimal rendering of a number reads back as that number |
| Scripts.ReadHeader | src/scripts/mod.rs:352-361 | the header loop's buffer is `HeaderText` of the file's lines |
| Scripts.NewScriptFile | src/scripts/mod.rs:348-380 | `ScriptFile::new` is `ScriptFileOf`: none for a file that does not open or a header that does not parse, else the parsed header with its path set |
| Scripts.ScriptFileOf | src/scripts/mod.rs:348-380 | a file that does not open gives no script; a parsed script carries the path it was read from |
| Scripts.HeaderTextIsCommentRun | src/scripts/mod.rs:352-361 | the header is the cleaned lines of the maximal run of `#` lines after the first line (unreadable lines skipped), concatenated in order |
| Scripts.CleanLine | src/scripts/mod.rs:353-357 | a cleaned header line holds no `#`; before its final newline lies a slice of the `#`-free line with only whitespace cut at either end and none left at either end, so it ends with exactly one newline |
| Scripts.HeaderHasNoHash | src/scripts/mod.rs:352-361 | the header text holds no `#` |
| Scripts.HeaderSkipsFirstLine | src/scripts/mod.rs:352 | whatever the first line holds, the header does not change |
| Scripts.HeaderStopsAtPlainLine | src/scripts/mod.rs:353-360 | after a read line that does not start with `#`, nothing further changes the header |
| Scripts.ParseScripts | src/scripts/mod.rs:152-161 | `parse_scripts` returns `Parsed`: the scripts that parsed, in path order |
| Scripts.ParsedExactly | src/scripts/mod.rs:152-161 | the parsed scripts are exactly, one for one, the paths whose script parsed, in order; never more than the paths |
| Scripts.ParsedPaths | src/scripts/mod.rs:152-161 | every parsed script carries the path of a listed file that exists |
| Scripts.InitScripts | src/scripts/mod.rs:100-150 | `init_scripts` returns `InitResult`: by mode, nothing, the embedded default, or the tag-selected parsed scripts of the configured or home directory; errors when the config cannot be read, no directory is known, or the folder is missing |
| Scripts.InitScriptsModes | src/scripts/mod.rs:103-144 | mode `none` gives no script; mode `default` gives exactly the embedded one; custom mode gives nothing without config tags, and every script it gives passes the tag rule and was read from the scripts directory |
| Scripts.Selects | src/scripts/mod.rs:129-133 | the coded rule: the script has tags and each is a config tag (its consequences are stated by `Scripts.SelectedExactly` and `Scripts.TagRulesAgree`) |
| Scripts.SelectedExactly | src/scripts/mod.rs:127-144 | a script is selected exactly when the config has tags, the script has tags, and every one of its tags is a config tag; untagged scripts never are |
| Scripts.SelectedInOrder | src/scripts/mod.rs:128-134 | selection keeps the parse order |
| Scripts.TagRulesDiffer | src/scripts/mod.rs:42-43 | the documented rule and the coded rule differ in both directions |
| Scripts.TagRulesAgree | src/scripts/mod.rs:130-132 | both rules select a script exactly when script tags and config tags are the same set; the rules give the same answer exactly when the script is untagged or the two tag inclusions hold or fail together |
| Scripts.Run | src/scripts/mod.rs:226-271 | the missing-format error exactly when there is no call format; the missing-path failure (a panic in the source) exactly when the format holds `{{script}}` and there is no path; success exactly otherwise, with the format, the IP, the port string, the IP version, and the script path exactly when the format holds `{{script}}` |
| Scripts.PortsString | src/scripts/mod.rs:229-239 | the trigger port when there is one, else the decimal ports joined by the separator, `,` by default (its properties are stated by `Scripts.PortsRoundTrip`, `Scripts.TriggerPortOverrides` and `Scripts.PortsExample`) |
| Scripts.PortsRoundTrip | src/scripts/mod.rs:229-236 | the port string, split at its separator, gives back each open port as its decimal rendering |
| Scripts.TriggerPortOverrides | src/scripts/mod.rs:237-239 | a trigger port replaces the port list entirely |
| Scripts.PortsExample | src/scripts/mod.rs:498 | ports 80 and 8080 with the default separator give `80,8080` |
| Scripts.IpVersion | src/scripts/mod.rs:255-258 | `4` exactly for V4 addresses, `6` exactly for V6 ones |
| Scripts.DefaultScriptNeedsNoPath | src/scripts/mod.rs:93-97 | the embedded default's call format has no `{{script}}` placeholder |
| Scenarios.ExcludeOneAddress | src/address.rs:264-280 | `192.168.0.0/30` without `192.168.0.1` gives `.0`, `.2`, `.3` |
| Scenarios.ExcludeSubnet | src/address.rs:283-300 | `192.168.0.0/29` without `192.168.0.0/30` gives `.4` to `.7` |
| Scenarios.DuplicateCidrs | src/address.rs:397-406 | `79.98.104.0/21` with `79.98.104.0/24` gives 2048 addresses |
| Scenarios.SubnetAddsNothing | src/address.rs:75-76 | a subnet listed after a network on the same base adds no address |
| Scenarios.OverspecificCidr | src/address.rs:409-419 | `192.128.1.1/24` gives 256 addresses |
| Scenarios.CorrectAndIncorrect | src/address.rs:334-343 | `127.0.0.1` and an unresolvable non-file token give just `127.0.0.1`, with one warning for the other token |
| Scenarios.RetainAfterExcluded | src/address.rs:76 | excluded addresses followed by distinct non-excluded new ones leave exactly the new ones |
| Scenarios.RetainAllExcluded | src/address.rs:76 | addresses that are all excluded leave nothing |
| Scenarios.TwoTokens | src/address.rs:38-45 | two tokens give the addresses of each in turn and list those that gave none |
| Scenarios.ListOfTwo | src/address.rs:181-187 | a resolver source that is no file and is two comma-separated IPs gives those two IPs in order |
| Scenarios.ResolverFromList | src/address.rs:433-444 | `8.8.8.8,8.8.4.4` gives two UDP name servers on port 53, in that order |

## Left out

- DNS: `to_socket_addrs` and `Resolver::lookup_ip` are oracles (`Address.Dns`). Building a `hickory_resolver::Resolver` and its `unwrap` calls (src/address.rs:194, 199) reduce to which name servers it gets. The OS lookup is typed so that a successful answer is never empty; the code would panic at src/address.rs:105 if it were. The same type covers the lookup of the bare host name at src/address.rs:116, where an empty success would instead give no address without trying the resolver; that case is not modelled.
- Text parsing of addresses and networks by `IpAddr::from_str`, `IpInet::from_str` and `IpCidr::from_str` is a parameter (`Address.Syntax`). Only its results, numeric addresses and networks, are modelled.
- The file system: `Path::is_file`, `File::open`, `fs::read_to_string`, `fs::read_dir`, `dirs::home_dir` and `ScriptConfig::read_config` are values of the environment records. An error on an individual `read_dir` entry is not modelled. `find_scripts` is a directory in `dirs`, or `ScriptsFolderMissing`.
- Scripts.NewScriptFile: a path that opens but whose lines keep failing to read would make `lines().skip(1).flatten()` loop forever (a directory, for instance). Files here are finite line sequences, so that case is not modelled.
- TOML decoding of `ScriptFile`, `ScriptConfig` and the embedded `DEFAULT` is out of scope. `Scripts.DefaultScript` is the record that `DEFAULT` decodes to.
- Scripts.Run: a format holding `{{script}}` on a script without a path makes `self.path.unwrap()` at src/scripts/mod.rs:252 panic; the model returns `Failure(MissingScriptPath)` instead. It stops at the values the call format is filled with. `Template::fill_with_struct` and `execute_script` (process spawning, exit codes and signals) are not modelled. The IP is kept as an address rather than rendered by `to_string`. On a non-UTF-8 script path, `to_str().unwrap()` at src/scripts/mod.rs:252 would panic; paths are strings here, so that case is not modelled.
- Address.ParseAddresses: warnings are returned as the list of warned tokens instead of being printed by `warning!`. `debug!` logging is dropped everywhere.
- `ScriptsRequired::None` is called `NoScripts`, because `None` is the `Option` constructor here.
- The `Script::build` constructor is the datatype constructor `Scripts.Script`.
