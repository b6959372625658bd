/**
 * The exFAT name rules applied by `sanitise` in exfatmirror.py, as pure
 * functions: a name keeps the characters exFAT accepts, is split into stem and
 * suffix the way pathlib splits it, and has its stem cut from the right so that
 * stem and suffix together fit exFAT's 255-character limit (the FileName field,
 * section 7.7.3 of the Microsoft exFAT File System Specification).
 *
 * Lengths are counted in code points, as Python counts them.
 */
module ExfatNames {
  import opened SeqFacts

  /** The longest name exFAT accepts, in characters. */
  const MaxNameLength: int := 255

  /** The printable characters exFAT forbids in a name: / \ : * ? " < > | */
  predicate Forbidden(c: char) {
    c == '/' || c == '\\' || c == ':' || c == '*' || c == '?' ||
    c == '"' || c == '<' || c == '>' || c == '|'
  }

  function Min(a: int, b: int): int { if a <= b then a else b }

  function Max(a: int, b: int): int { if a <= b then b else a }

  /** A character exFAT accepts: a code point of at least 32 that is not
      forbidden. Only the code points below 32 are rejected as controls, so
      DEL and the C1 controls are accepted. */
  predicate Allowed(c: char) {
    c as int >= 32 && !Forbidden(c)
  }

  predicate AllAllowed(s: string) {
    forall i :: 0 <= i < |s| ==> Allowed(s[i])
  }

  /** A name that sanitising leaves as it is: only allowed characters, at most
      255 of them, and not ".", which pathlib reads as an empty name. */
  predicate ValidName(s: string) {
    AllAllowed(s) && s != "." && |s| <= MaxNameLength
  }

  /** `n` copies of `c`. */
  function Repeat(c: char, n: nat): (r: string)
    ensures |r| == n && forall i :: 0 <= i < n ==> r[i] == c
  {
    seq(n, _ => c)
  }

  /** The characters of `name` that exFAT accepts, in their original order
      (the generator filter of `sanitise`). */
  function Filtered(name: string): (r: string)
    ensures |r| <= |name| && AllAllowed(r)
  {
    if name == [] then []
    else
      var last := name[|name| - 1];
      Filtered(name[..|name| - 1]) + (if Allowed(last) then [last] else [])
  }

  /** Filtering leaves only allowed characters, never lengthens a name, and
      keeps a name exactly when all its characters are allowed. */
  lemma {:induction false} FilteredSpec(name: string)
    ensures var r := Filtered(name);
      |r| <= |name| && AllAllowed(r) && (r == name <==> AllAllowed(name))
  {
    if name != [] {
      var init, last := name[..|name| - 1], name[|name| - 1];
      FilteredSpec(init);
      assert name == init + [last];
      if Allowed(last) {
        assert Filtered(name) == Filtered(init) + [last];
        if AllAllowed(name) {
          assert AllAllowed(init);
        }
      } else {
        assert Filtered(name) == Filtered(init);
      }
    }
  }

  /** A name none of whose characters is allowed filters to nothing. */
  lemma {:induction false} FilteredNone(name: string)
    requires forall i :: 0 <= i < |name| ==> !Allowed(name[i])
    ensures Filtered(name) == []
  {
    if name != [] {
      FilteredNone(name[..|name| - 1]);
    }
  }

  /** Filtering works character by character, so it distributes over
      concatenation. */
  lemma {:induction false} FilteredAppend(a: string, b: string)
    ensures Filtered(a + b) == Filtered(a) + Filtered(b)
  {
    if b == [] {
      assert a + b == a;
    } else {
      AppendInit(a, b);
      FilteredAppend(a, b[..|b| - 1]);
    }
  }

  /** The name of `Path(chars)` when `chars` holds no separator: pathlib reads
      both "" and "." as the current directory, whose name is empty. */
  function PathName(chars: string): string {
    if chars == "." then "" else chars
  }

  /** The name pathlib sees once the forbidden characters are gone. */
  function FilteredName(name: string): (r: string)
    ensures AllAllowed(r) && r != "." && |r| <= |name|
  {
    PathName(Filtered(name))
  }

  /** Python's `s.rfind(c)`: the index of the last `c` in `s`, or -1. */
  function RFind(s: string, c: char): (i: int)
    ensures -1 <= i < |s|
    ensures i >= 0 ==> s[i] == c
    ensures forall j :: i < j < |s| ==> s[j] != c
  {
    if s == [] then -1
    else if s[|s| - 1] == c then |s| - 1
    else RFind(s[..|s| - 1], c)
  }

  /** Where pathlib's `suffix` of the name `n` begins: at its last dot when that
      dot is neither the first nor the last character, otherwise at the end of
      `n`, so that the suffix is empty. */
  function SuffixStart(n: string): (k: nat)
    ensures k <= |n|
    ensures k < |n| ==>
      0 < k < |n| - 1 && n[k] == '.' && forall j :: k < j < |n| ==> n[j] != '.'
    ensures k == |n| ==>
      forall j :: 0 < j < |n| - 1 && n[j] == '.' ==> n[|n| - 1] == '.'
  {
    var i := RFind(n, '.');
    if 0 < i < |n| - 1 then i else |n|
  }

  /** pathlib's `suffix`: the extension, dot included, or "". */
  function Suffix(n: string): string {
    n[SuffixStart(n)..]
  }

  /** pathlib's `stem`: the name without its suffix. */
  function Stem(n: string): string {
    n[..SuffixStart(n)]
  }

  /** Python's slice `s[:k]`; a negative `k` drops `-k` characters from the end. */
  function SliceTo(s: string, k: int): (r: string)
    ensures r <= s
    ensures |r| == if k >= 0 then Min(k, |s|) else Max(0, |s| + k)
  {
    if k >= 0 then s[..Min(k, |s|)] else s[..Max(0, |s| + k)]
  }

  /** What `sanitise(name)` returns: `stem[:255 - len(suffix)] + suffix` of the
      filtered name. */
  function SanitisedName(name: string): (r: string)
    ensures AllAllowed(r)
    ensures r != "."
  {
    var n := FilteredName(name);
    FilteredSpec(name);
    SplitName(n);
    SliceTo(Stem(n), MaxNameLength - |Suffix(n)|) + Suffix(n)
  }

  /** Stem and suffix partition a name; a non-empty suffix is a dot followed by
      at least one character and no other dot, and comes after a non-empty stem. */
  lemma SplitName(n: string)
    ensures Stem(n) + Suffix(n) == n
    ensures Suffix(n) == "" ||
      (|Suffix(n)| >= 2 && Suffix(n)[0] == '.' && Stem(n) != "" &&
       forall j :: 0 < j < |Suffix(n)| ==> Suffix(n)[j] != '.')
  {
    var k := SuffixStart(n);
    assert n[..k] + n[k..] == n;
  }

  /** The result ends with the suffix of the filtered name, kept verbatim, and
      what comes before it is a prefix of the stem. When the suffix has at most
      255 characters the result is exactly the first 255 characters' worth:
      its length is that of the filtered name capped at 255. A longer suffix
      makes the slice bound negative and the result longer than 255. */
  lemma SanitiseShape(name: string)
    ensures var n, r := FilteredName(name), SanitisedName(name);
      |Suffix(n)| <= |r| &&
      r[|r| - |Suffix(n)|..] == Suffix(n) &&
      r[..|r| - |Suffix(n)|] <= Stem(n)
    ensures var n, r := FilteredName(name), SanitisedName(name);
      |Suffix(n)| <= MaxNameLength ==> |r| == Min(|n|, MaxNameLength)
    ensures var n, r := FilteredName(name), SanitisedName(name);
      |r| <= MaxNameLength <==> |Suffix(n)| <= MaxNameLength
  {
    var n := FilteredName(name);
    SplitName(n);
    var sfx := Suffix(n);
    var cut := SliceTo(Stem(n), MaxNameLength - |sfx|);
    assert SanitisedName(name) == cut + sfx;
    assert (cut + sfx)[|cut|..] == sfx;
    assert (cut + sfx)[..|cut|] == cut;
  }

  /** `sanitise` returns a name unchanged, and so does not record it, exactly
      when the name is already valid for exFAT. */
  lemma SanitiseFixpoint(name: string)
    ensures SanitisedName(name) == name <==> ValidName(name)
  {
    var n := FilteredName(name);
    FilteredSpec(name);
    SplitName(n);
    SanitiseShape(name);
    var r := SanitisedName(name);
    var sfx := Suffix(n);
    var cut := SliceTo(Stem(n), MaxNameLength - |sfx|);
    assert r == cut + sfx;
    if ValidName(name) {
      assert n == name;
      assert |cut| == |Stem(n)|;
      assert cut == Stem(n);
    }
    if r == name {
      assert AllAllowed(name);
      assert n == name;
    }
  }

  /** Sanitising twice gives what sanitising once gave exactly when the
      suffix of the filtered name has at most 255 characters. */
  lemma SanitiseIdempotent(name: string)
    ensures SanitisedName(SanitisedName(name)) == SanitisedName(name)
        <==> |Suffix(FilteredName(name))| <= MaxNameLength
  {
    SanitiseShape(name);
    SanitiseFixpoint(SanitisedName(name));
  }

  /** Forbidden characters between two runs of allowed ones are dropped and
      the runs are joined. */
  lemma FilteredDrops(a: string, b: string, c: string)
    requires AllAllowed(a) && AllAllowed(c)
    requires forall i :: 0 <= i < |b| ==> !Allowed(b[i])
    ensures Filtered(a + b + c) == a + c
  {
    FilteredKeeps(a);
    FilteredNone(b);
    FilteredKeeps(c);
    FilteredAppend(a, b);
    FilteredAppend(a + b, c);
    AppendEmpty(a);
  }

  /** A name of allowed characters only is its own filtering. */
  lemma FilteredKeeps(name: string)
    requires AllAllowed(name)
    ensures Filtered(name) == name
  {
    FilteredSpec(name);
  }

  /** Sanitising looks only at the allowed characters of a name: when they
      form a valid name, that name is the result. */
  lemma SanitiseSeesFiltered(name: string)
    ensures SanitisedName(name) == SanitisedName(Filtered(name))
    ensures ValidName(Filtered(name)) ==> SanitisedName(name) == Filtered(name)
  {
    var f := Filtered(name);
    FilteredSpec(name);
    FilteredKeeps(f);
    SanitiseSameFiltered(name, f);
    if ValidName(f) {
      SanitiseFixpoint(f);
    }
  }

  /** Dropping forbidden characters from between two runs of allowed ones
      that together form a valid name gives that name. */
  lemma SanitiseDrops(a: string, b: string, c: string)
    requires AllAllowed(a) && AllAllowed(c)
    requires forall i :: 0 <= i < |b| ==> !Allowed(b[i])
    requires a + c != "." && |a + c| <= MaxNameLength
    ensures SanitisedName(a + b + c) == a + c
  {
    DroppedValid(a, b, c);
    SanitiseSeesFiltered(a + b + c);
  }

  lemma DroppedValid(a: string, b: string, c: string)
    requires AllAllowed(a) && AllAllowed(c)
    requires forall i :: 0 <= i < |b| ==> !Allowed(b[i])
    requires a + c != "." && |a + c| <= MaxNameLength
    ensures Filtered(a + b + c) == a + c && ValidName(a + c)
  {
    FilteredDrops(a, b, c);
    FilteredSpec(a + b + c);
  }

  /** Two names with the same filtered name sanitise alike. */
  lemma SanitiseSameFiltered(a: string, b: string)
    requires FilteredName(a) == FilteredName(b)
    ensures SanitisedName(a) == SanitisedName(b)
  {
  }

  /** Forbidden characters are dropped and the extension survives. */
  lemma SanitiseWeirdName()
    ensures SanitisedName("weird<>name.txt") == "weirdname.txt"
  {
    assert "weird" + "<>" + "name.txt" == "weird<>name.txt";
    assert "weird" + "name.txt" == "weirdname.txt";
    SanitiseDrops("weird", "<>", "name.txt");
  }

  /** A 304-character name with a short extension is cut to 255 characters
      by shortening its stem; the extension is kept. */
  lemma SanitiseLongStem()
    ensures var r := SanitisedName(Repeat('a', 300) + ".txt");
      |r| == MaxNameLength && r == Repeat('a', 251) + ".txt"
  {
    var name := Repeat('a', 300) + ".txt";
    assert AllAllowed(name);
    FilteredSpec(name);
    assert FilteredName(name) == name;
    var k := SuffixStart(name);
    assert name[300] == '.';
    assert name[303] == 't';
    assert k == 300;
    assert Stem(name) == Repeat('a', 300);
    assert Suffix(name) == ".txt";
  }

  /** With a suffix longer than 255 characters the slice bound is negative:
      the result is longer than 255 and sanitising it again changes it. */
  lemma SanitiseLongSuffix()
    ensures var r := SanitisedName("x." + Repeat('b', 300));
      |r| == 301 && r == "." + Repeat('b', 300) && SanitisedName(r) != r
  {
    var name := "x." + Repeat('b', 300);
    assert AllAllowed(name);
    FilteredSpec(name);
    assert FilteredName(name) == name;
    var k := SuffixStart(name);
    assert name[1] == '.';
    assert k == 1;
    assert Stem(name) == "x";
    assert Suffix(name) == "." + Repeat('b', 300);
    SanitiseIdempotent(name);
  }

  /** The hidden-name check looks at the original name: "?.foo" is not hidden,
      yet it sanitises to the dot-name ".foo". */
  lemma SanitiseMakesDotName()
    ensures SanitisedName("?.foo") == ".foo"
  {
    assert "" + "?" + ".foo" == "?.foo";
    assert "" + ".foo" == ".foo";
    SanitiseDrops("", "?", ".foo");
  }

  /** "?.." sanitises to "..", which as a path part names the parent
      directory rather than an entry. */
  lemma SanitiseMakesDotDot()
    ensures SanitisedName("?..") == ".."
  {
    assert "" + "?" + ".." == "?..";
    assert "" + ".." == "..";
    SanitiseDrops("", "?", "..");
  }

  /** A name none of whose characters exFAT accepts sanitises to "". */
  lemma SanitiseNothingAllowed(name: string)
    requires forall i :: 0 <= i < |name| ==> !Allowed(name[i])
    ensures SanitisedName(name) == ""
  {
    FilteredNone(name);
    SanitiseSeesFiltered(name);
  }

  /** A name that filters to "." is emptied, because pathlib's `Path('.')` has
      an empty name. */
  lemma SanitiseDot()
    ensures SanitisedName(".") == "" && SanitisedName(".|") == ""
  {
    assert ".|"[..1] == ".";
    assert Filtered(".") == ".";
    assert Filtered(".|") == ".";
  }
}
