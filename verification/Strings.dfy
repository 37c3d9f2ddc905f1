// NUL-terminated byte strings, as the symbol pools hold them.

module Strings {
  import opened Words

  /** The C string starting at `off`: bytes up to the first NUL (or the end of the buffer). */
  function CStr(b: seq<Byte>, off: nat): seq<Byte>
    decreases |b| - off
  {
    if off >= |b| || b[off] == 0 then [] else [b[off]] + CStr(b, off + 1)
  }

  predicate HasNul(b: seq<Byte>, off: nat) {
    exists k :: off <= k < |b| && b[k] == 0
  }

  /** strcmp(s, t) < 0, == 0 and > 0 for NUL-free strings. */
  predicate Before(s: seq<Byte>, t: seq<Byte>) {
    t != [] && (s == [] || s[0] < t[0] || (s[0] == t[0] && Before(s[1..], t[1..])))
  }

  lemma {:induction false} Trichotomy(s: seq<Byte>, t: seq<Byte>)
    ensures s == t || Before(s, t) || Before(t, s)
    decreases |s|
  {
    if s == [] || t == [] || s[0] != t[0] {
    } else {
      Trichotomy(s[1..], t[1..]);
      if s[1..] == t[1..] {
        assert s == [s[0]] + s[1..] && t == [t[0]] + t[1..];
      }
    }
  }

  lemma {:induction false} BeforeAsymmetric(s: seq<Byte>, t: seq<Byte>)
    requires Before(s, t)
    ensures !Before(t, s) && s != t
    decreases |s|
  {
    if s == [] || s[0] != t[0] {
    } else {
      BeforeAsymmetric(s[1..], t[1..]);
    }
  }

  lemma {:induction false} BeforeTransitive(s: seq<Byte>, t: seq<Byte>, u: seq<Byte>)
    requires Before(s, t) && Before(t, u)
    ensures Before(s, u)
    decreases |s|
  {
    if s == [] || s[0] != t[0] || t[0] != u[0] {
    } else {
      BeforeTransitive(s[1..], t[1..], u[1..]);
    }
  }
}
