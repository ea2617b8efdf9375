# fmt_f64: scientific notation with a signed, zero-padded exponent

This project models `fmt_f64` from the `singlephase` pipe-hydraulics program
(src/main.rs). The program uses it to print the Reynolds number. `fmt_f64`
takes Rust's scientific rendering of a float, such as `3.2955e6` or
`-1.2000e-5`, and rewrites it:

1. It cuts the text at the first `'e'`.
2. It writes the exponent with an explicit sign: `'-'` when the exponent text
   starts with `"e-"`, `'+'` otherwise.
3. It left-pads the exponent digits with `'0'` to `exp_pad` characters.
4. It right-aligns the whole result with spaces in a field of `width`
   characters.

With `width = 10` and `exp_pad = 3`, `3.2955e6` becomes `3.2955e+006`.

Rust's float-to-text step (`format!("{:.precision$e}", num)`) is a library
routine and is not modelled. Its output is the input string `rendered` (`s`
in the lemmas). The `unwrap` of `find('e')` panics when that string has no
`'e'`. The model returns `None` in that case instead of requiring an `'e'`.
Rust's `{:e}` writes NaN as `NaN` and infinities as `inf` / `-inf`, with no
`'e'`, so those are the values on which the source panics.

Files:

- `strops.dfy`, module `StrOps`: the Rust string operations `fmt_f64` uses,
  over `seq<char>`. `Find` is `str::find` for one character, `StartsWith` is
  `str::starts_with`, and `PadLeft` is the `{:c>w$}` fill-and-align format.
  `TrimStart` strips a leading run of a character and is used to read results
  back.
- `fmt_f64.dfy`, module `SciFormat`:
  - `FmtF64` is the source routine step by step. It cuts the local buffer
    `num` at the `'e'` (`split_off`) and appends the rebuilt exponent
    (`push_str`).
  - `FmtExp` is the same computation as a function of the input, and `FmtF64`
    is proved equal to it.
  - `Split`, `Join` and `Unpadded` name the intermediate values.
  - `ParseOutput` is an independent reader of the output. It strips the
    spaces, splits at the `'e'` and strips the padding zeros. It is used to
    prove that the padding loses nothing.

## Model

| member | source | states |
|---|---|---|
| SciFormat.FmtF64 | src/main.rs:6-19 | The step-by-step routine returns exactly `FmtExp` of its input, and `None` (the `unwrap` panic) exactly when the input has no `'e'`. |
| SciFormat.FmtExp | src/main.rs:7-9 | A result exists exactly when the rendered string contains an `'e'`; otherwise `unwrap` panics. |
| SciFormat.Split | src/main.rs:9-15 | No result when there is no `'e'`. Otherwise the mantissa holds no `'e'`, so it is everything before the first `'e'`. The sign is `'-'` exactly when the text from that `'e'` starts with `"e-"`, and `'+'` otherwise. Mantissa, `'e'`, the dropped `'-'` and the digits join back to the input. |
| SciFormat.SignAndDigits | src/main.rs:11-15 | The sign is `'-'` exactly when the exponent text starts with `"e-"`, and `'+'` otherwise. The digits are the text after `"e-"` or after `"e"`, so `'e'`, the `'-'` if any, and the digits rebuild the exponent text. |
| SciFormat.JoinAt | src/main.rs:9-15 | Cutting at an `'e'` loses no text. The digits are the input from two characters past the `'e'` in the `'-'` case and one character past it otherwise. |
| StrOps.Find | src/main.rs:9 | `find('e')` returns `None` exactly when there is no `'e'`. Otherwise it returns an index holding `'e'` with no `'e'` before it. |
| StrOps.PadLeft | src/main.rs:16-18 | `{:c>w$}` gives a result of length `max(len, w)`. It ends with the whole text, and everything before that is the fill character. |
| SciFormat.FmtExpShape | src/main.rs:16-18 | The output has length `max(width, len(mantissa) + 2 + max(len(digits), exp_pad))`. It is spaces followed by the rebuilt text. The rebuilt text is the mantissa, `'e'`, the sign, then only `'0'`s, then the digits, untruncated and in order. |
| SciFormat.OutputShape | src/main.rs:16-18 | The same shape, stated for the output built from given parts. |
| SciFormat.SignCharCount | src/main.rs:11-16 | Before any zero padding (`exp_pad = 0`), the rebuilt text has one more character than the input when the sign is `'+'` and the same count when it is `'-'`. |
| SciFormat.SplitJoin | src/main.rs:9-15 | Splitting undoes joining: a mantissa with no `'e'`, a sign, and digits (not starting with `'-'` under `'+'`) are recovered from their rendering. |
| SciFormat.ParseUnpadded | src/main.rs:16 | The rebuilt text reads back as the mantissa, sign and digits it was built from, with the padding zeros stripped. |
| SciFormat.ParseExponent | src/main.rs:16 | Reading a mantissa without `'e'`, then `'e'`, a sign and exponent text gives back the mantissa and the sign exactly. |
| SciFormat.StripPadZerosPadLeft | src/main.rs:16 | Stripping leading `'0'`s (keeping one character) undoes the exponent's zero padding of canonical digits. |
| StrOps.TrimStartPadLeft | src/main.rs:18 | Stripping the leading spaces undoes the right-alignment of a text that does not itself start with a space. |
| SciFormat.RoundTrip | src/main.rs:9-18 | For canonical parts (as Rust's `{:e}` writes them), the output of `fmt_f64` on their rendering reads back as exactly those parts. The result always exists for such input. |
| SciFormat.RenderingRoundTrip | src/main.rs:9-18 | Stated on the input string: stripping the spaces and the exponent's padding zeros gives back the split of the input. Joining that gives back the input itself. |
| SciFormat.PadKeepsExponent | src/main.rs:16 | Zero-padding a digit string keeps it a digit string that denotes the same number, so the exponent's value is unchanged. |

## Left out

- `format!("{:.precision$e}", num)` (src/main.rs:7): Rust's float-to-decimal conversion is a library routine. Its output is the model's input string, and the `precision` parameter is therefore not modelled.
- `main` (src/main.rs:22-45): a demonstration entry point with hard-coded inputs and `println!` output.
- `length::inches::to_metres` and `length::millimetres::to_metres` (src/main.rs:25, 29): they come from the `unit_conversions` crate, which is not part of this model.
- The `SingleFx` pipe-flow engine: the struct in src/signle_phase.rs:3-11 and the calls `new`, `velocity`, `pressure_drop_100`, `velocity_head` and `reynold_num` at src/main.rs:32-42. The source has no method bodies for them, and the computations they stand for (velocity, Reynolds number, the Churchill friction factor and the Darcy–Weisbach pressure drop) are floating-point numerics with π, `ln` and fractional powers.
- Byte indices: Rust's `find` and `split_off` work on UTF-8 byte offsets, and widths count characters. The model works on characters throughout. The two agree on the ASCII text that `{:e}` produces.
- RoundTrip: reading the output back is proved for canonical parts only. Canonical parts have a mantissa that does not start with a space and exponent digits with no leading `'0'` (other than `"0"` itself). Rust's `{:e}` always produces such parts. For other inputs, the leading spaces or zeros of the input itself cannot be told apart from the padding.
