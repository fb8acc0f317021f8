/** Text normalisation applied to every tag: Python's `tag.strip().lower()`.
    `strip()` removes, at both ends, the characters for which `str.isspace` holds;
    `lower()` is modelled on the ASCII letters only. The functions carry no
    postconditions of their own, so that proofs about tag lists do not drag
    them along; their properties are lemmas. */
module TagText {

  /** The code points for which Python's `str.isspace` is true. */
  predicate IsSpace(c: char) {
    var n := c as int;
    (9 <= n <= 13) || (28 <= n <= 32) || n == 0x85 || n == 0xA0 || n == 0x1680
    || (0x2000 <= n <= 0x200A) || n == 0x2028 || n == 0x2029 || n == 0x202F
    || n == 0x205F || n == 0x3000
  }

  predicate IsUpper(c: char) {
    'A' <= c <= 'Z'
  }

  function LowerChar(c: char): char {
    if IsUpper(c) then (c as int + 32) as char else c
  }

  /** `s.lstrip()` */
  function TrimStart(s: string): string {
    if s != [] && IsSpace(s[0]) then TrimStart(s[1..]) else s
  }

  /** `s.rstrip()` */
  function TrimEnd(s: string): string {
    if s != [] && IsSpace(s[|s| - 1]) then TrimEnd(s[..|s| - 1]) else s
  }

  function Strip(s: string): string {
    TrimEnd(TrimStart(s))
  }

  function Lower(s: string): string {
    if s == [] then [] else [LowerChar(s[0])] + Lower(s[1..])
  }

  /** `tag.strip().lower()`, the form in which tags are stored and compared. */
  function Normalise(tag: string): string {
    Lower(Strip(tag))
  }

  /** Every tag of a call, normalised. */
  function NormaliseAll(tags: seq<string>): (r: seq<string>)
    ensures |r| == |tags|
    ensures forall i :: 0 <= i < |tags| ==> r[i] == Normalise(tags[i])
  {
    seq(|tags|, i requires 0 <= i < |tags| => Normalise(tags[i]))
  }

  /** Neither end of `s` is white space. */
  predicate Stripped(s: string) {
    s == [] || (!IsSpace(s[0]) && !IsSpace(s[|s| - 1]))
  }

  /** Lower-casing turns no letter into white space and leaves no capital. */
  lemma LowerCharSpec(c: char)
    ensures !IsUpper(LowerChar(c))
    ensures IsSpace(LowerChar(c)) == IsSpace(c)
  {
  }

  /** `lstrip` drops exactly the leading white space. */
  lemma {:induction false} TrimStartSpec(s: string)
    ensures |TrimStart(s)| <= |s| && TrimStart(s) == s[|s| - |TrimStart(s)|..]
    ensures TrimStart(s) == [] || !IsSpace(TrimStart(s)[0])
    ensures forall i :: 0 <= i < |s| - |TrimStart(s)| ==> IsSpace(s[i])
  {
    if s != [] && IsSpace(s[0]) {
      var t := s[1..];
      TrimStartSpec(t);
      var r := TrimStart(t);
      assert t[|t| - |r|..] == s[|s| - |r|..];
      forall i | 0 <= i < |s| - |r|
        ensures IsSpace(s[i])
      {
        if i > 0 {
          assert s[i] == t[i - 1];
        }
      }
    }
  }

  /** `rstrip` drops exactly the trailing white space. */
  lemma {:induction false} TrimEndSpec(s: string)
    ensures |TrimEnd(s)| <= |s| && TrimEnd(s) == s[..|TrimEnd(s)|]
    ensures TrimEnd(s) == [] || !IsSpace(TrimEnd(s)[|TrimEnd(s)| - 1])
    ensures forall i :: |TrimEnd(s)| <= i < |s| ==> IsSpace(s[i])
  {
    if s != [] && IsSpace(s[|s| - 1]) {
      var t := s[..|s| - 1];
      TrimEndSpec(t);
      var r := TrimEnd(t);
      assert t[..|r|] == s[..|r|];
      forall i | |r| <= i < |s|
        ensures IsSpace(s[i])
      {
        if i < |s| - 1 {
          assert s[i] == t[i];
        }
      }
    }
  }

  /** `lower` maps each character on its own. */
  lemma {:induction false} LowerSpec(s: string)
    ensures |Lower(s)| == |s|
    ensures forall i :: 0 <= i < |s| ==> Lower(s)[i] == LowerChar(s[i])
  {
    if s != [] {
      LowerSpec(s[1..]);
    }
  }

  lemma StripResult(s: string)
    ensures Stripped(Strip(s))
  {
    var a := TrimStart(s);
    var b := TrimEnd(a);
    TrimStartSpec(s);
    TrimEndSpec(a);
    if b != [] {
      assert b[0] == a[0];
    }
  }

  lemma LowerStripped(s: string)
    requires Stripped(s)
    ensures Stripped(Lower(s))
  {
    LowerSpec(s);
    if s != [] {
      LowerCharSpec(s[0]);
      LowerCharSpec(s[|s| - 1]);
    }
  }

  /** A stored tag has no white space at either end and no capital letter. */
  lemma NormaliseForm(tag: string)
    ensures |Normalise(tag)| <= |tag|
    ensures Stripped(Normalise(tag))
    ensures forall i :: 0 <= i < |Normalise(tag)| ==> !IsUpper(Normalise(tag)[i])
  {
    var s := Strip(tag);
    TrimStartSpec(tag);
    TrimEndSpec(TrimStart(tag));
    StripResult(tag);
    LowerStripped(s);
    LowerSpec(s);
    forall i | 0 <= i < |s|
      ensures !IsUpper(Lower(s)[i])
    {
      LowerCharSpec(s[i]);
    }
  }

  /** A tag is skipped exactly when it is made of white space only. */
  lemma NormaliseEmptyIff(tag: string)
    ensures Normalise(tag) == "" <==> forall i :: 0 <= i < |tag| ==> IsSpace(tag[i])
  {
    var a := TrimStart(tag);
    TrimStartSpec(tag);
    TrimEndSpec(a);
    LowerSpec(Strip(tag));
    if a != [] {
      assert TrimEnd(a)[0] == a[0];
      assert !IsSpace(tag[|tag| - |a|]);
    }
  }

  /** Normalising a stored tag again leaves it as it is, so a tag shown to the
      user finds its paths when searched for. */
  lemma NormaliseIdempotent(tag: string)
    ensures Normalise(Normalise(tag)) == Normalise(tag)
  {
    var n := Normalise(tag);
    NormaliseForm(tag);
    // n is stripped, so stripping it again changes nothing
    if n != [] {
      assert TrimStart(n) == n;
      assert TrimEnd(n) == n;
    }
    assert Strip(n) == n;
    // n has no capital, so lower-casing it again changes nothing
    LowerSpec(n);
    forall i | 0 <= i < |n|
      ensures Lower(n)[i] == n[i]
    {
    }
  }

  /** Normalising a whole query twice is normalising it once. */
  lemma NormaliseAllIdempotent(tags: seq<string>)
    ensures NormaliseAll(NormaliseAll(tags)) == NormaliseAll(tags)
  {
    forall i | 0 <= i < |tags|
      ensures NormaliseAll(NormaliseAll(tags))[i] == NormaliseAll(tags)[i]
    {
      NormaliseIdempotent(tags[i]);
    }
  }
}
