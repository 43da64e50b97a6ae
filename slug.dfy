/**
 * `slugify` from the seeding script: strip, lower-case, keep ASCII, replace
 * every run of characters outside `[a-z0-9]` by one `-`, then strip `-` from
 * both ends. Usernames and e-mail addresses are built from its output.
 */
module Slug {
  import opened Text
  import opened Requests

  predicate IsSlugChar(c: char) { IsLowerAscii(c) || IsDigit(c) }

  /** The characters a slug is made of. */
  predicate SlugAlphabet(s: string)
  {
    forall i :: 0 <= i < |s| ==> IsSlugChar(s[i]) || s[i] == '-'
  }

  /** No two `-` in a row. */
  predicate NoDoubleDash(s: string)
  {
    forall i :: 0 <= i && i + 1 < |s| ==> !(s[i] == '-' && s[i + 1] == '-')
  }

  /** What `slugify` promises of its output. */
  predicate IsSlug(s: string)
  {
    SlugAlphabet(s) && NoDoubleDash(s) && (s == [] || (s[0] != '-' && s[|s| - 1] != '-'))
  }

  /** `encode("ascii", "ignore")`: every character outside ASCII is dropped. */
  function AsciiOnly(s: string): (r: string)
    ensures |r| <= |s|
    ensures forall i :: 0 <= i < |r| ==> r[i] as int < 128
  {
    if s == [] then []
    else (if s[0] as int < 128 then [s[0]] else []) + AsciiOnly(s[1..])
  }

  /** Drops the leading run of characters outside `[a-z0-9]`. */
  function DropRun(s: string): (r: string)
    ensures |r| <= |s|
    ensures r == [] || IsSlugChar(r[0])
  {
    if s == [] || IsSlugChar(s[0]) then s else DropRun(s[1..])
  }

  /** `re.sub(r"[^a-z0-9]+", "-", s)`. */
  function Dashify(s: string): (r: string)
    ensures SlugAlphabet(r)
    ensures (s == [] || IsSlugChar(s[0])) ==> (r == [] || IsSlugChar(r[0]))
    decreases |s|
  {
    if s == [] then []
    else if IsSlugChar(s[0]) then [s[0]] + Dashify(s[1..])
    else "-" + Dashify(DropRun(s[1..]))
  }

  /** `s.lstrip("-")`. */
  function TrimDashStart(s: string): (r: string)
    ensures |r| <= |s|
    ensures forall i :: 0 <= i < |r| ==> r[i] == s[|s| - |r| + i]
    ensures r == [] || r[0] != '-'
    ensures forall i :: 0 <= i < |s| - |r| ==> s[i] == '-'
  {
    if s != [] && s[0] == '-' then TrimDashStart(s[1..]) else s
  }

  /** `s.rstrip("-")`. */
  function TrimDashEnd(s: string): (r: string)
    ensures |r| <= |s|
    ensures forall i :: 0 <= i < |r| ==> r[i] == s[i]
    ensures r == [] || r[|r| - 1] != '-'
    ensures forall i :: |r| <= i < |s| ==> s[i] == '-'
  {
    if s != [] && s[|s| - 1] == '-' then TrimDashEnd(s[..|s| - 1]) else s
  }

  /** The ASCII filter keeps exactly the ASCII characters of its input. */
  lemma {:induction false} AsciiOnlyMembers(s: string)
    ensures forall c :: c in AsciiOnly(s) <==> c in s && c as int < 128
  {
    if s != [] {
      AsciiOnlyMembers(s[1..]);
      assert s == [s[0]] + s[1..];
    }
  }

  /** The ASCII filter keeps the order of what it keeps: it works piece by piece. */
  lemma {:induction false} AsciiOnlyAppend(a: string, b: string)
    ensures AsciiOnly(a + b) == AsciiOnly(a) + AsciiOnly(b)
  {
    if a == [] {
      assert a + b == b;
    } else {
      assert (a + b)[1..] == a[1..] + b;
      AsciiOnlyAppend(a[1..], b);
    }
  }

  /** The characters of `s` that belong in a slug, in order. */
  function SlugChars(s: string): (r: string)
    ensures forall i :: 0 <= i < |r| ==> IsSlugChar(r[i])
  {
    if s == [] then [] else (if IsSlugChar(s[0]) then [s[0]] else []) + SlugChars(s[1..])
  }

  /** The number of `-` in `s`. */
  function DashCount(s: string): nat
  {
    if s == [] then 0 else (if s[0] == '-' then 1 else 0) + DashCount(s[1..])
  }

  /** The number of places where a slug character is directly followed by another character. */
  function RunBoundaries(s: string): nat
  {
    if |s| < 2 then 0 else (if IsSlugChar(s[0]) && !IsSlugChar(s[1]) then 1 else 0) + RunBoundaries(s[1..])
  }

  /** The number of maximal runs of characters outside `[a-z0-9]` in `s`. */
  function OtherRuns(s: string): nat
  {
    (if s != [] && !IsSlugChar(s[0]) then 1 else 0) + RunBoundaries(s)
  }

  lemma {:induction false} DropRunKeepsSlugChars(s: string)
    ensures SlugChars(DropRun(s)) == SlugChars(s)
  {
    if s != [] && !IsSlugChar(s[0]) {
      DropRunKeepsSlugChars(s[1..]);
    }
  }

  /** The substitution keeps every slug character of its input, in order, and adds none. */
  lemma {:induction false} DashifyKeepsSlugChars(s: string)
    ensures SlugChars(Dashify(s)) == SlugChars(s)
    decreases |s|
  {
    if s != [] {
      if IsSlugChar(s[0]) {
        DashifyKeepsSlugChars(s[1..]);
        assert ([s[0]] + Dashify(s[1..]))[1..] == Dashify(s[1..]);
      } else {
        DropRunKeepsSlugChars(s[1..]);
        DashifyKeepsSlugChars(DropRun(s[1..]));
        assert ("-" + Dashify(DropRun(s[1..])))[1..] == Dashify(DropRun(s[1..]));
      }
    }
  }

  /** After a character outside `[a-z0-9]`, the boundaries left are those past the rest of its run. */
  lemma {:induction false} BoundariesAfterOther(s: string)
    requires s != [] && !IsSlugChar(s[0])
    ensures RunBoundaries(s) == OtherRuns(DropRun(s[1..]))
    decreases |s|
  {
    var t := s[1..];
    if t != [] && !IsSlugChar(t[0]) {
      BoundariesAfterOther(t);
    }
  }

  /** The substitution writes exactly one `-` per maximal run of other characters. */
  lemma {:induction false} DashifyOneDashPerRun(s: string)
    ensures DashCount(Dashify(s)) == OtherRuns(s)
    decreases |s|
  {
    if s != [] {
      var t := s[1..];
      if IsSlugChar(s[0]) {
        DashifyOneDashPerRun(t);
        assert ([s[0]] + Dashify(t))[1..] == Dashify(t);
      } else {
        DashifyOneDashPerRun(DropRun(t));
        assert ("-" + Dashify(DropRun(t)))[1..] == Dashify(DropRun(t));
        BoundariesAfterOther(s);
      }
    }
  }

  /** The substitution never leaves two `-` in a row: a whole run becomes one. */
  lemma {:induction false} DashifyNoDoubleDash(s: string)
    ensures NoDoubleDash(Dashify(s))
    decreases |s|
  {
    if s != [] {
      var r := Dashify(s);
      if IsSlugChar(s[0]) {
        var rest := Dashify(s[1..]);
        DashifyNoDoubleDash(s[1..]);
        assert r == [s[0]] + rest;
        forall i | 0 <= i && i + 1 < |r| ensures !(r[i] == '-' && r[i + 1] == '-') {
          if i > 0 { assert r[i] == rest[i - 1] && r[i + 1] == rest[i]; }
        }
      } else {
        var t := DropRun(s[1..]);
        var rest := Dashify(t);
        DashifyNoDoubleDash(t);
        assert r == "-" + rest;
        forall i | 0 <= i && i + 1 < |r| ensures !(r[i] == '-' && r[i + 1] == '-') {
          if i > 0 { assert r[i] == rest[i - 1] && r[i + 1] == rest[i]; }
          else { assert IsSlugChar(rest[0]); }
        }
      }
    }
  }

  /**
   * `slugify(s)`. Unicode NFKD decomposition is not modelled: a character
   * outside ASCII is dropped whole.
   */
  function Slugify(s: string): string
  {
    TrimDashEnd(TrimDashStart(Dashify(AsciiOnly(Lower(Strip(s))))))
  }

  lemma SliceKeepsShape(s: string, lo: int, hi: int)
    requires 0 <= lo <= hi <= |s|
    requires SlugAlphabet(s) && NoDoubleDash(s)
    ensures SlugAlphabet(s[lo..hi]) && NoDoubleDash(s[lo..hi])
  {
    var t := s[lo..hi];
    assert forall i :: 0 <= i < |t| ==> t[i] == s[lo + i];
  }

  /** The output of `slugify` uses `[a-z0-9-]` only, with no `-` at either end and none doubled. */
  lemma SlugifyIsSlug(s: string)
    ensures IsSlug(Slugify(s))
  {
    var d := Dashify(AsciiOnly(Lower(Strip(s))));
    DashifyNoDoubleDash(AsciiOnly(Lower(Strip(s))));
    var a := TrimDashStart(d);
    SliceKeepsShape(d, |d| - |a|, |d|);
    var b := TrimDashEnd(a);
    SliceKeepsShape(a, 0, |b|);
    if b != [] {
      assert b[0] == a[0];
    }
  }

  /** A string without double dashes in the slug alphabet is left as it is by the substitution. */
  lemma {:induction false} DashifyKeepsSlugText(t: string)
    requires SlugAlphabet(t) && NoDoubleDash(t)
    ensures Dashify(t) == t
    decreases |t|
  {
    if t != [] {
      var u := t[1..];
      SliceKeepsShape(t, 1, |t|);
      DashifyKeepsSlugText(u);
      assert t == [t[0]] + u;
      if !IsSlugChar(t[0]) {
        assert t[0] == '-';
        if u != [] {
          assert t[1] == u[0] && !(t[0] == '-' && t[1] == '-');
        }
        assert DropRun(u) == u;
      }
    }
  }

  lemma LowerKeepsSlugText(t: string)
    requires SlugAlphabet(t)
    ensures Lower(t) == t
  {
  }

  lemma StripKeepsSlugText(t: string)
    requires SlugAlphabet(t)
    ensures Strip(t) == t
  {
    if t != [] {
      assert IsSlugChar(t[0]) || t[0] == '-';
      assert IsSlugChar(t[|t| - 1]) || t[|t| - 1] == '-';
    }
    NoSpaceIsStripped(t);
  }

  lemma {:induction false} AsciiKeepsSlugText(t: string)
    requires SlugAlphabet(t)
    ensures AsciiOnly(t) == t
  {
    if t != [] {
      assert SlugAlphabet(t[1..]) by {
        assert forall i :: 0 <= i < |t| - 1 ==> t[1..][i] == t[i + 1];
      }
      AsciiKeepsSlugText(t[1..]);
      assert t == [t[0]] + t[1..];
    }
  }

  lemma TrimKeepsSlug(t: string)
    requires IsSlug(t)
    ensures TrimDashEnd(TrimDashStart(t)) == t
  {
    assert TrimDashStart(t) == t;
  }

  /** Slugifying a slug gives it back: `slugify` is idempotent. */
  lemma SlugifyIdempotent(s: string)
    ensures Slugify(Slugify(s)) == Slugify(s)
  {
    var t := Slugify(s);
    SlugifyIsSlug(s);
    StripKeepsSlugText(t);
    LowerKeepsSlugText(t);
    AsciiKeepsSlugText(t);
    DashifyKeepsSlugText(t);
    TrimKeepsSlug(t);
  }
}
