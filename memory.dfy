/**
 * The two block copies the vector relies on: `memcpy` between two
 * distinct buffers and `memmove` inside one buffer, where source and
 * destination may overlap. Both are modelled as one simultaneous
 * assignment, which reads every source slot before any slot is written,
 * exactly the guarantee `memmove` gives.
 */
module Memory {

  /** The slots of `s` once `n` of them, from `src` on, are moved to `dst`. */
  function Moved<T>(s: seq<T>, dst: nat, src: nat, n: nat): seq<T>
    requires src + n <= |s| && dst + n <= |s|
  {
    s[..dst] + s[src..src + n] + s[dst + n..]
  }

  /** The slots of `s` once `t` is written over them from `at` on. */
  function Written<T>(s: seq<T>, at: nat, t: seq<T>): seq<T>
    requires at + |t| <= |s|
  {
    s[..at] + t + s[at + |t|..]
  }

  /** memcpy(dst + dstFrom, src + srcFrom, n): `src` and `dst` are different blocks. */
  method Copy<T>(src: array<T>, srcFrom: nat, dst: array<T>, dstFrom: nat, n: nat)
    requires src != dst
    requires srcFrom + n <= src.Length && dstFrom + n <= dst.Length
    modifies dst
    ensures dst[..] == Written(old(dst[..]), dstFrom, src[srcFrom..srcFrom + n])
  {
    forall k | dstFrom <= k < dstFrom + n {
      dst[k] := src[k - dstFrom + srcFrom];
    }
  }

  /** memmove(a + dst, a + src, n): the two ranges may overlap. */
  method Move<T>(a: array<T>, dst: nat, src: nat, n: nat)
    requires src + n <= a.Length && dst + n <= a.Length
    modifies a
    ensures a[..] == Moved(old(a[..]), dst, src, n)
  {
    forall k | dst <= k < dst + n {
      a[k] := a[k - dst + src];
    }
  }
}
