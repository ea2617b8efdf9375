/**
 * The pieces of Rust's string library that `fmt_f64` relies on, over
 * strings seen as sequences of characters: `str::find` for one character,
 * `str::starts_with`, and the fill/align padding of `format!("{:c>w$}", s)`,
 * which right-aligns `s` in a field of `w` characters filled with `c`.
 */
module StrOps {

  datatype Option<+T> = None | Some(value: T)

  function Max(a: int, b: int): (m: int)
    ensures m >= a && m >= b && (m == a || m == b)
  {
    if a >= b then a else b
  }

  /** `n` copies of the character `c`. */
  function Repeat(c: char, n: nat): (r: string)
    ensures |r| == n
    ensures forall k :: 0 <= k < n ==> r[k] == c
  {
    if n == 0 then [] else [c] + Repeat(c, n - 1)
  }

  /** Every character of `s` is `c`. */
  predicate AllOf(s: string, c: char)
  {
    forall k :: 0 <= k < |s| ==> s[k] == c
  }

  /** `str::starts_with`: `p` is a prefix of `s`. */
  predicate StartsWith(s: string, p: string)
  {
    |p| <= |s| && s[..|p|] == p
  }

  /**
   * `str::find(c)`: the index of the first occurrence of `c` in `s`,
   * or None when `c` does not occur.
   */
  function Find(s: string, c: char): (r: Option<nat>)
    ensures r.None? <==> c !in s
    ensures r.Some? ==> r.value < |s| && s[r.value] == c && c !in s[..r.value]
  {
    if |s| == 0 then None
    else if s[0] == c then Some(0)
    else match Find(s[1..], c)
      case None => None
      case Some(i) =>
        assert s[..i + 1] == [s[0]] + s[1..][..i];
        Some(i + 1)
  }

  /**
   * `format!("{:c>w$}", s)`: `s` right-aligned in a field of `width`
   * characters. The result keeps `s` whole as its suffix, never truncates
   * it, and everything in front of it is the fill character.
   */
  function PadLeft(s: string, fill: char, width: nat): (r: string)
    ensures |r| == Max(|s|, width)
    ensures r[|r| - |s|..] == s
    ensures AllOf(r[..|r| - |s|], fill)
  {
    Repeat(fill, if width > |s| then width - |s| else 0) + s
  }

  /** `str::trim_start_matches(c)`: `s` without its leading run of `c`. */
  function TrimStart(s: string, c: char): string
  {
    if |s| > 0 && s[0] == c then TrimStart(s[1..], c) else s
  }

  /** Trimming the fill character undoes left padding with it. */
  lemma {:induction false} TrimStartRepeat(c: char, n: nat, s: string)
    requires s == [] || s[0] != c
    ensures TrimStart(Repeat(c, n) + s, c) == s
  {
    if n > 0 {
      var x := Repeat(c, n - 1) + s;
      assert Repeat(c, n) + s == [c] + x;
      assert ([c] + x)[0] == c && ([c] + x)[1..] == x;
      TrimStartRepeat(c, n - 1, s);
      assert TrimStart([c] + x, c) == TrimStart(x, c);
    } else {
      assert Repeat(c, n) + s == s;
    }
  }

  /** Trimming the fill character undoes right-alignment with it. */
  lemma TrimStartPadLeft(s: string, fill: char, width: nat)
    requires s == [] || s[0] != fill
    ensures TrimStart(PadLeft(s, fill, width), fill) == s
  {
    TrimStartRepeat(fill, if width > |s| then width - |s| else 0, s);
  }

  /** Search in `m + t` stops inside `t` when `m` does not contain `c`. */
  lemma {:induction false} FindAfter(m: string, t: string, c: char)
    requires c !in m
    requires |t| > 0 && t[0] == c
    ensures Find(m + t, c) == Some(|m|)
  {
    if |m| > 0 {
      assert (m + t)[1..] == m[1..] + t;
      FindAfter(m[1..], t, c);
    }
  }
}
