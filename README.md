# cfgbkc naming and hex encoding, modelled in Dafny

cfgbkc is a configuration backup tool. Its `tools.rs` module builds the names
the tool writes to disk:

- a random lowercase hex string (`generate_random_hexstring`), produced by
  drawing bytes from a random generator and appending each byte as two hex
  digits;
- the staging directory `<base>/tmp_<32 hex digits>` (`generate_tempdir`);
- the archive path `<save_path>/<filename>.tar.gz` (`compress_tar_gz_target`);
- the default archive label `<YYYYmmdd>_<HHMMSS>_<16 hex digits>`
  (`generate_randname_with_time`).

The model makes the random generator and the clock inputs: `rng: nat -> Byte`
gives the value of the generator's i-th draw, and a `LocalTime` value holds
the fields of `Local::now()` that `%Y%m%d_%H%M%S` prints. The outcomes of the filesystem calls (creating a
directory, creating the archive file, `append_dir_all`) are inputs of type
`Outcome`, so the model keeps the functions' error paths but not their
effects.

Files:

- `wrappers.dfy` (module `Wrappers`): `Option`, `Result` (for `anyhow::Result`) and `Outcome`.
- `hex.dfy` (module `Hex`): the byte formatter `{:02x}`, the encoder `HexEncode`, its inverse `HexDecode`, and the method `GenerateRandomHexstring` with the source's loop.
- `decimal.dfy` (module `Decimal`): zero-padded decimal fields (`{:0w}`) and their values.
- `paths.dfy` (module `Paths`): Unix paths as Rust's `std::path` sees them (a root flag and a list of components) with `Join` = `Path::join`, `Parent` and `FileName`.
- `tools.dfy` (module `Tools`): the three name builders, the parser that reads a label back, and the lemmas about them.

`Path::join` is modelled as Rust defines it on Unix. An absolute argument
replaces the base path. Otherwise the argument's components are appended, and
empty and `.` segments disappear. The model proves that the archive is a
direct child of the save directory when the file name contains no `/`. Some
names that contain `/` also give a direct child: `./x` gives
`<save_path>/x.tar.gz`. The suffix `.tar.gz` holds for every file name.

chrono's `%Y` prints years 0 to 9999 as four zero-padded digits. Other years
get an explicit sign. The 32-character shape of the label is therefore proved
for four-digit years. For every year, the label contains no `/`, so it is a
single path component.

`lib.rs` is a command-line stub: it parses options and prints a greeting.
`main.rs` only sets up logging. The model therefore covers only `tools.rs`.

## Model

| member | source | states |
|---|---|---|
| `Hex.Draws` | cfgbkc/src/tools.rs:51 | the bytes drawn by `rng.gen()` in one run of the loop: `n` of them, the i-th being the generator's i-th value |
| `Hex.GenerateRandomHexstring` | cfgbkc/src/tools.rs:47-55 | always returns `Ok`; the string is the hex encoding of the first `len` draws in draw order, `2*len` characters long, with characters `2i` and `2i+1` the high and low nibble of the i-th draw |
| `Hex.FormatByte` | cfgbkc/src/tools.rs:52 | `{:02x}` gives two lowercase hex digits whose value, high digit first, is the byte |
| `Hex.HexDigit` | cfgbkc/src/tools.rs:52 | each nibble is printed as a lowercase hex digit whose value is that nibble |
| `Hex.HexEncode` | cfgbkc/src/tools.rs:50-53 | the encoding of n bytes has length 2n and uses only `0-9a-f` |
| `Hex.HexEncodeAt` | cfgbkc/src/tools.rs:50-53 | characters 2i and 2i+1 of the encoding are the high and low nibble of byte i |
| `Hex.HexEncodeAppend` | cfgbkc/src/tools.rs:48-53 | encoding more bytes only appends: the output for earlier bytes is never changed |
| `Hex.DecodeEncode` | cfgbkc/src/tools.rs:50-52 | decoding an encoding gives back the bytes |
| `Hex.EncodeDecode` | cfgbkc/src/tools.rs:50-52 | any string that decodes is the encoding of the decoded bytes, so only encodings decode |
| `Hex.HexEncodeInjective` | cfgbkc/src/tools.rs:50-52 | distinct byte sequences give distinct hex strings |
| `Decimal.ZeroPadded` | cfgbkc/src/tools.rs:61 | a `%m`, `%d`, `%H`, `%M` or `%S` field (`{:02}`) and the year digits (`{:04}`): decimal digits only, at least the padding width long |
| `Decimal.ValueOfZeroPadded` | cfgbkc/src/tools.rs:61 | a zero-padded date or time field reads back as its number |
| `Decimal.ZeroPaddedWidth` | cfgbkc/src/tools.rs:61 | a number below 10^w padded to width w has exactly w digits |
| `Decimal.ZeroPaddedOfValue` | cfgbkc/src/tools.rs:61 | every non-empty digit string is the padded form of its own value at its own width |
| `Paths.Join` | cfgbkc/src/tools.rs:20 | `Path::join` on Unix: an argument starting with `/` gives an absolute path of components; any other argument keeps the base's root flag and components as a prefix and appends only proper components |
| `Paths.Parent` | cfgbkc/src/tools.rs:42 | `Path::parent`: present exactly when the path has a component; it is the path without its last component |
| `Paths.FileName` | cfgbkc/src/tools.rs:42 | `Path::file_name`: present exactly when the last component exists and is not `..`, and then it is that component |
| `Paths.JoinComponent` | cfgbkc/src/tools.rs:42 | joining a single component gives a direct child of the base path named by that component |
| `Paths.JoinWithSuffix` | cfgbkc/src/tools.rs:19-20 | joining any text that ends in a separator-free suffix gives a path whose last component ends in that suffix |
| `Tools.ArchiveFileName` | cfgbkc/src/tools.rs:19 | `format!("{filename}.tar.gz")` starts with the file name and ends with `.tar.gz` |
| `Tools.ArchivePath` | cfgbkc/src/tools.rs:19-20 | for every file name, the archive path has a file name, and it ends in `.tar.gz` |
| `Tools.ArchivePathIsChild` | cfgbkc/src/tools.rs:19-20 | for a file name without `/`, the archive is a direct child of `save_path` named `<filename>.tar.gz` |
| `Tools.ArchivePathInjective` | cfgbkc/src/tools.rs:19-20 | different separator-free file names give different archive paths in the same directory |
| `Tools.CompressTarGzTarget` | cfgbkc/src/tools.rs:11-25 | `Ok` exactly when the save directory exists or is created, the file is created and `append_dir_all` succeeds; otherwise the first failing step's error; on success the value is the archive path, whose name ends in `.tar.gz` and which is a child of `save_path` when the name has no `/` |
| `Tools.TempdirName` | cfgbkc/src/tools.rs:41 | `format!("tmp_{}", hex)` is 4 + 2n characters for n draws and is a single path component other than `..` |
| `Tools.TempdirNameShape` | cfgbkc/src/tools.rs:41 | the staging name is `tmp_` and 32 lowercase hex digits, 36 characters, a single path component |
| `Tools.TempdirNameInjective` | cfgbkc/src/tools.rs:41 | different draws give different staging names |
| `Tools.GenerateTempdir` | cfgbkc/src/tools.rs:40-45 | fails only with the directory-creation error; otherwise returns a direct child of the base path named `tmp_<hex of 16 draws>` |
| `Tools.TempdirsDistinct` | cfgbkc/src/tools.rs:40-45 | staging directories under one base differ whenever their 16 draws differ |
| `Tools.FormatYear` | cfgbkc/src/tools.rs:61 | chrono's `%Y`: a year in 0..9999 gives four digits that read back as the year; any other year gives `-` (negative) or `+` followed by at least four digits that read back as its magnitude; never a `/` |
| `Tools.FormatLocalTime` | cfgbkc/src/tools.rs:61 | `%Y%m%d_%H%M%S` contains no `/`; for a four-digit year it is 15 characters with `_` at position 8 |
| `Tools.Randname` | cfgbkc/src/tools.rs:59-63 | the label for a time and drawn bytes contains no `/` for any year and ends with the hex encoding of the bytes |
| `Tools.GenerateRandnameWithTime` | cfgbkc/src/tools.rs:57-65 | always returns `Ok`; the value is the label of the time and the first 8 draws, and it contains no `/` for any time |
| `Tools.RandnameShape` | cfgbkc/src/tools.rs:59-63 | for a four-digit year and 8 bytes: 8 date digits, `_`, 6 time digits, `_`, 16 lowercase hex digits, 32 characters in all |
| `Tools.RandnameRoundTrip` | cfgbkc/src/tools.rs:59-63 | for a four-digit year and 8 bytes, parsing the label recovers the time and the bytes |
| `Tools.ParseRandnameSound` | cfgbkc/src/tools.rs:59-63 | whatever parses as a label has a four-digit year and 8 bytes, and is the label of what it parses to |
| `Tools.RandnameInjective` | cfgbkc/src/tools.rs:59-63 | for four-digit years and 8 bytes, distinct (time, bytes) pairs give distinct labels |
| `Tools.GeneratedArchivesDistinct` | cfgbkc/src/tools.rs:57-65 | for four-digit years, an archive named by a generated label is `<label>.tar.gz` directly in the save directory, and two runs that differ in their printed local date and time (to the second) or in the first 8 draws write different archive files |

## Left out

- The tar and gzip packing and unpacking in `compress_tar_gz_target` and `decompress_tar_gz_target` are external crates over file I/O. Only the success or failure of `append_dir_all` enters the model, as an `Outcome`.
- Tools.CompressTarGzTarget: `Ok` does not imply a complete archive. The function never finishes the tar builder or the gzip encoder (cfgbkc/src/tools.rs:22-25). The end-of-archive blocks and the gzip trailer are written when they are dropped, and the crates discard errors there. A later failure of that kind is not modelled.
- `decompress_tar_gz_target`: opening the archive, its fixed `/tmp` unpack root and the extraction are filesystem effects. Its staging directory is `GenerateTempdir` with the base `/tmp`.
- The effects of `create_dir_all` and `File::create` are not modelled. Only their outcomes are.
- `LocalTime`: only the fields `%Y%m%d_%H%M%S` prints are modelled. The sub-second part and the UTC offset of `Local::now()` are dropped, so two runs in the same second, or in a repeated daylight-saving hour, have equal times. Their archive names then differ only through the random draws.
- `rand::thread_rng` and `Local::now()` are nondeterministic. The model takes the draws and the time as inputs. Nothing about the quality of the randomness is modelled.
- `get_file_createtime` reads file metadata and converts time zones. Both are I/O.
- `lib.rs` only parses command-line options. `main.rs` only sets up logging.
- `Paths.Join` drops every `.` segment, including a leading one, which Rust keeps as a current-directory component. The option defaults documented in `lib.rs` (`./config.yaml`, `./bkup`) start with one. Dropping it changes none of the proved `Parent` and `FileName` facts. In Rust, the parent of `./bkup/x.tar.gz` is the save path `./bkup` and its file name is `x.tar.gz`, exactly as the model states for the save path `bkup`.
- `Hex.GenerateRandomHexstring`: `len` is an unbounded `nat` rather than `usize`. The string length `2*len` is not bounded by memory.
