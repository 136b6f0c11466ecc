/** The derived display name of a Worker (tasks/models.py, `Worker.__str__`,
    `Worker.create_full_name`): Python's `str.strip`, the list comprehension
    that keeps the non-blank stripped name parts, and `" ".join`. */
module Names {
  import opened Entities

  /** The characters Python's `str.isspace` accepts, which are the ones
      `str.strip()` removes. */
  predicate IsSpace(c: char)
  {
    var n := c as int;
    (9 <= n <= 13) || (28 <= n <= 32) || n == 0x85 || n == 0xA0 || n == 0x1680
    || (0x2000 <= n <= 0x200A) || n == 0x2028 || n == 0x2029 || n == 0x202F
    || n == 0x205F || n == 0x3000
  }

  /** A string made of whitespace only (the empty string included). */
  predicate IsBlank(s: string)
  {
    forall i :: 0 <= i < |s| ==> IsSpace(s[i])
  }

  /** `s.lstrip()`: the suffix of `s` left after dropping leading whitespace. */
  function TrimStart(s: string): (r: string)
    ensures |r| <= |s| && r == s[|s| - |r|..]
    ensures IsBlank(s[..|s| - |r|])
    ensures r != [] ==> !IsSpace(r[0])
  {
    if s != [] && IsSpace(s[0]) then
      var r := TrimStart(s[1..]);
      BlankPrefixExtends(s, |s[1..]| - |r|);
      r
    else s
  }

  /** A blank prefix of the tail of `s`, after a leading space, is a blank
      prefix of `s` one longer. */
  lemma BlankPrefixExtends(s: string, k: nat)
    requires s != [] && IsSpace(s[0]) && k <= |s| - 1 && IsBlank(s[1..][..k])
    ensures IsBlank(s[..k + 1])
  {
    var p := s[..k + 1];
    forall i | 0 <= i < |p| ensures IsSpace(p[i]) {
      if i > 0 {
        assert p[i] == s[1..][..k][i - 1];
      }
    }
  }

  /** `s.rstrip()`: the prefix of `s` left after dropping trailing whitespace. */
  function TrimEnd(s: string): (r: string)
    ensures |r| <= |s| && r == s[..|r|]
    ensures IsBlank(s[|r|..])
    ensures r != [] ==> !IsSpace(r[|r| - 1])
  {
    if s != [] && IsSpace(s[|s| - 1]) then
      var r := TrimEnd(s[..|s| - 1]);
      BlankSuffixExtends(s, |r|);
      r
    else s
  }

  /** A blank suffix of `s` without its trailing space, followed by that
      space, is a blank suffix of `s`. */
  lemma BlankSuffixExtends(s: string, k: nat)
    requires s != [] && IsSpace(s[|s| - 1]) && k <= |s| - 1 && IsBlank(s[..|s| - 1][k..])
    ensures IsBlank(s[k..])
  {
    forall i | 0 <= i < |s| - k ensures IsSpace(s[k..][i]) {
      if i < |s| - 1 - k {
        assert s[k..][i] == s[..|s| - 1][k..][i];
      }
    }
  }

  /** `s.strip()`. */
  function Strip(s: string): (r: string)
    ensures r == [] <==> IsBlank(s)
    ensures r != [] ==> !IsSpace(r[0]) && !IsSpace(r[|r| - 1])
  {
    var t := TrimStart(s);
    assert t == [] ==> s[..|s|] == s;
    assert t != [] ==> TrimEnd(t) != [];
    TrimEnd(t)
  }

  /** What `strip` keeps is one contiguous slice of the input, and only
      whitespace lies on either side of it. */
  lemma {:induction false} StripSlice(s: string) returns (i: nat, j: nat)
    ensures i <= j <= |s| && Strip(s) == s[i..j]
    ensures IsBlank(s[..i]) && IsBlank(s[j..])
  {
    var t := TrimStart(s);
    var u := TrimEnd(t);
    i := |s| - |t|;
    j := i + |u|;
    SliceOfSuffix(s, i, |u|);
  }

  /** Slicing a suffix is slicing the whole. */
  lemma SliceOfSuffix(s: string, i: nat, n: nat)
    requires i + n <= |s|
    ensures s[i..][..n] == s[i..i + n] && s[i..][n..] == s[i + n..]
  {
  }

  /** A string that neither starts nor ends with whitespace is its own
      strip. */
  lemma StripUnchanged(s: string)
    requires s != [] ==> !IsSpace(s[0]) && !IsSpace(s[|s| - 1])
    ensures Strip(s) == s
  {
    if s != [] {
      assert TrimStart(s) == s;
      assert TrimEnd(s) == s;
    }
  }

  /** Stripping a stripped string changes nothing. */
  lemma StripIdempotent(s: string)
    ensures Strip(Strip(s)) == Strip(s)
  {
    StripUnchanged(Strip(s));
  }

  /** `[p.strip() for p in parts if p and p.strip()]`. */
  function Cleaned(parts: seq<string>): (r: seq<string>)
    ensures |r| <= |parts|
    ensures forall p :: p in r ==> p != [] && Strip(p) == p
  {
    if parts == [] then []
    else
      var rest := Cleaned(parts[1..]);
      if parts[0] != [] && Strip(parts[0]) != [] then
        StripIdempotent(parts[0]);
        [Strip(parts[0])] + rest
      else rest
  }

  /** The comprehension keeps the stripped form of every non-blank part, and
      nothing else. */
  lemma {:induction false} CleanedKeeps(parts: seq<string>)
    ensures forall p :: p in parts && !IsBlank(p) ==> Strip(p) in Cleaned(parts)
    ensures forall q :: q in Cleaned(parts) ==> exists p :: p in parts && !IsBlank(p) && Strip(p) == q
  {
    if parts != [] {
      CleanedKeeps(parts[1..]);
      var rest := Cleaned(parts[1..]);
      var keep := parts[0] != [] && Strip(parts[0]) != [];
      assert Cleaned(parts) == if keep then [Strip(parts[0])] + rest else rest;
      assert keep <==> !IsBlank(parts[0]);
      forall p | p in parts && !IsBlank(p) ensures Strip(p) in Cleaned(parts) {
        if p != parts[0] {
          assert p in parts[1..];
        }
      }
      forall q | q in Cleaned(parts) ensures exists p :: p in parts && !IsBlank(p) && Strip(p) == q {
        if keep && q == Strip(parts[0]) {
          assert parts[0] in parts;
        } else {
          assert q in rest;
          var p :| p in parts[1..] && !IsBlank(p) && Strip(p) == q;
          assert p in parts;
        }
      }
    }
  }

  /** `sep.join(parts)`. */
  function Join(sep: string, parts: seq<string>): string
  {
    if parts == [] then []
    else if |parts| == 1 then parts[0]
    else parts[0] + sep + Join(sep, parts[1..])
  }

  /** The one-element list holding `x`, or no element when `x` is empty. */
  function NonEmpty(x: string): seq<string>
  {
    if x == [] then [] else [x]
  }

  /** Cleaning the two name parts keeps the stripped form of each one that is
      not blank. */
  lemma CleanedPair(a: string, b: string)
    ensures Cleaned([a, b]) == NonEmpty(Strip(a)) + NonEmpty(Strip(b))
  {
    var parts := [a, b];
    assert parts[1..] == [b];
    assert parts[1..][1..] == [];
    assert Cleaned([b]) == NonEmpty(Strip(b));
  }

  /** Joining at most two non-empty parts. */
  lemma JoinPair(x: string, y: string)
    ensures Join(" ", NonEmpty(x) + NonEmpty(y))
            == if x == [] then y else if y == [] then x else x + " " + y
  {
    if x != [] && y != [] {
      var parts := [x, y];
      assert NonEmpty(x) + NonEmpty(y) == parts;
      assert parts[1..] == [y];
    } else if x != [] {
      assert NonEmpty(x) + NonEmpty(y) == [x];
    } else if y != [] {
      assert NonEmpty(x) + NonEmpty(y) == [y];
    } else {
      assert NonEmpty(x) + NonEmpty(y) == [];
    }
  }

  /** The joined, cleaned pair of names is the stripped names with a blank
      one dropped, and is empty exactly when both are blank. */
  lemma JoinCleanedPair(lastName: string, firstName: string)
    ensures var r := Join(" ", Cleaned([lastName, firstName]));
            && r == (if IsBlank(lastName) then Strip(firstName)
                     else if IsBlank(firstName) then Strip(lastName)
                     else Strip(lastName) + " " + Strip(firstName))
            && (r == [] <==> IsBlank(lastName) && IsBlank(firstName))
  {
    var a, b := Strip(lastName), Strip(firstName);
    CleanedPair(lastName, firstName);
    JoinPair(a, b);
    var r := Join(" ", Cleaned([lastName, firstName]));
    if a == [] {
      assert r == b;
    } else if b == [] {
      assert r == a;
    }
  }

  /** Two non-empty parts joined by a space start with the first one's first
      character and end with the second one's last. */
  lemma JoinedEnds(a: string, b: string)
    requires a != [] && b != []
    ensures var r := a + " " + b; r[0] == a[0] && r[|r| - 1] == b[|b| - 1]
  {
  }

  /** `Worker.create_full_name`: the stripped last name and the stripped first
      name, each dropped when blank, joined by one space. */
  function FullName(lastName: string, firstName: string): (r: string)
    ensures r == (if IsBlank(lastName) then Strip(firstName)
                  else if IsBlank(firstName) then Strip(lastName)
                  else Strip(lastName) + " " + Strip(firstName))
    ensures r == [] <==> IsBlank(lastName) && IsBlank(firstName)
    ensures r != [] ==> !IsSpace(r[0]) && !IsSpace(r[|r| - 1])
  {
    JoinCleanedPair(lastName, firstName);
    if !IsBlank(lastName) && !IsBlank(firstName) then
      JoinedEnds(Strip(lastName), Strip(firstName));
      Join(" ", Cleaned([lastName, firstName]))
    else Join(" ", Cleaned([lastName, firstName]))
  }

  /** A full name never needs stripping. */
  lemma FullNameIsStripped(lastName: string, firstName: string)
    ensures Strip(FullName(lastName, firstName)) == FullName(lastName, firstName)
  {
    StripUnchanged(FullName(lastName, firstName));
  }

  /** The full name depends on the names only through their stripped forms. */
  lemma FullNameOfStripped(lastName: string, firstName: string)
    ensures FullName(Strip(lastName), Strip(firstName)) == FullName(lastName, firstName)
  {
    StripIdempotent(lastName);
    StripIdempotent(firstName);
  }

  /** A worker whose `fullName` column holds what `Worker.save` computes. */
  predicate HasDerivedName(w: Worker)
  {
    w.fullName == FullName(w.lastName, w.firstName)
  }

  /** `Worker.__str__`: the stored full name when both names are non-empty,
      the username otherwise. */
  function Display(w: Worker): string
  {
    if w.firstName != [] && w.lastName != [] then w.fullName else w.username
  }

  /** For a saved worker the display string is the joined, stripped names when
      both are non-empty, and the username when either is empty. */
  lemma DisplayOfSaved(w: Worker)
    ensures w.firstName == [] || w.lastName == [] ==> Display(w) == w.username
    ensures HasDerivedName(w) && !IsBlank(w.firstName) && !IsBlank(w.lastName)
            ==> Display(w) == Strip(w.lastName) + " " + Strip(w.firstName)
  {
    assert !IsBlank(w.firstName) ==> w.firstName != [];
    assert !IsBlank(w.lastName) ==> w.lastName != [];
  }

  /** As written, `__str__` shows an empty string for a saved worker whose
      names are whitespace only, although the username is there to show. */
  lemma BlankNamesDisplayEmpty(w: Worker)
    requires w.firstName == " " && w.lastName == " " && w.fullName == [] && w.username != []
    ensures HasDerivedName(w) && Display(w) == [] && Display(w) != w.username
  {
    assert w.firstName[0] == ' ' && w.lastName[0] == ' ';
    assert IsBlank(w.firstName) && IsBlank(w.lastName);
  }

  /** On the same input, the corrected display falls back to the username. */
  lemma BlankNamesDisplayUsername(w: Worker)
    requires w.firstName == " " && w.lastName == " " && w.fullName == [] && w.username != []
    ensures DisplayNonBlank(w) == w.username
  {
    BlankNamesDisplayEmpty(w);
  }

  /** The display rule with the names tested after stripping, as the fallback
      to the username evidently intends. */
  function DisplayNonBlank(w: Worker): (r: string)
    ensures HasDerivedName(w) && w.username != [] ==> r != []
    ensures HasDerivedName(w) ==>
              r == (if IsBlank(w.firstName) || IsBlank(w.lastName) then w.username
                    else Strip(w.lastName) + " " + Strip(w.firstName))
    ensures r != Display(w) ==> w.firstName != [] && w.lastName != []
                                && (IsBlank(w.firstName) || IsBlank(w.lastName))
  {
    DisplayOfSaved(w);
    if !IsBlank(w.firstName) && !IsBlank(w.lastName) then w.fullName else w.username
  }

  /** With one name blank and the other not, both non-empty, `__str__` shows
      the other name alone while the corrected display shows the username:
      the correction treats a whitespace-only name as missing, as an empty
      one already is. */
  lemma OneBlankNameDiffers(w: Worker)
    requires HasDerivedName(w)
    requires w.firstName != [] && w.lastName != []
    requires IsBlank(w.lastName) != IsBlank(w.firstName)
    ensures Display(w) == (if IsBlank(w.lastName) then Strip(w.firstName) else Strip(w.lastName))
    ensures Display(w) != []
    ensures DisplayNonBlank(w) == w.username
  {
  }
}

/** Worked examples from the tests. Each example takes its strings and
    workers as parameters fixed by `requires` rather than as literals in the
    `ensures`: a function applied to literal arguments is unfolded eagerly,
    which would cost the verifier far more work than these proofs need. */
module NameExamples {
  import opened Entities
  import opened Names

  /** The names "User" (last) and "Test" (first) give the full name
      "User Test". */
  lemma FullNameExample(lastName: string, firstName: string)
    requires lastName == "User" && firstName == "Test"
    ensures FullName(lastName, firstName) == "User Test"
  {
    assert |lastName| == 4 && lastName[0] == 'U' && lastName[3] == 'r';
    assert |firstName| == 4 && firstName[0] == 'T' && firstName[3] == 't';
    assert !IsSpace('U') && !IsSpace('r') && !IsSpace('T') && !IsSpace('t');
    StripUnchanged(lastName);
    StripUnchanged(firstName);
    assert !IsBlank(lastName) && !IsBlank(firstName);
    assert lastName + " " + firstName == "User Test";
  }

  /** A worker so named is saved with that full name and displayed by it; a
      worker saved without names is displayed by username. */
  lemma DisplayExamples(named: Worker, unnamed: Worker)
    requires named == Worker("test_worker", "Test", "User", "User Test", None, "")
    requires unnamed == Worker("test_worker", "", "", "", None, "")
    ensures HasDerivedName(named) && Display(named) == "User Test"
    ensures HasDerivedName(unnamed) && Display(unnamed) == "test_worker"
  {
    FullNameExample(named.lastName, named.firstName);
    assert |named.firstName| == 4 && |named.lastName| == 4;
    assert IsBlank(unnamed.lastName) && IsBlank(unnamed.firstName);
  }
}
