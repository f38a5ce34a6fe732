/** The slug pipeline of batbelt/strings.py.

    `unicode_slugify` runs three regular-expression and string steps over
    its input:
      1. delete every character that is not a word character (`\w`),
         whitespace (`\s`) or the separator;
      2. `strip()` whitespace from both ends, then `lower()`;
      3. replace every run of separator or whitespace characters by one
         separator.
    `unicodedata_slugify` and `unidecode_slugify` run the same steps on the
    output of a normalisation step, as ASCII byte strings.

    What counts as a word character, as whitespace, and what `lower()` does
    come from the Unicode database; here they are a parameter, `Classes`,
    with the properties the pipeline relies on stated by `Sane`.  The ASCII
    instance used by the two normalising variants is given in full. */
module Strings {

  /** `\w`, `\s` (which is also what `strip()` removes) and `lower()` on one
      character. */
  datatype Classes = Classes(isWord: char -> bool, isSpace: char -> bool, lower: char -> char)

  /** Lowering keeps a character's class and is idempotent. */
  ghost predicate Sane(c: Classes) {
    && (forall x :: c.isWord(c.lower(x)) == c.isWord(x))
    && (forall x :: c.isSpace(c.lower(x)) == c.isSpace(x))
    && (forall x :: c.lower(c.lower(x)) == c.lower(x))
  }

  /** The separator is spliced unescaped into two character classes,
      `[^\w\s<sep>]` and `[<sep>\s]+`; these three characters would change
      what the classes mean. */
  predicate SafeSeparator(sep: char) {
    sep != ']' && sep != '\\' && sep != '^'
  }

  // ---------------------------------------------------------------- step 1

  predicate Kept(c: Classes, sep: char, x: char) {
    c.isWord(x) || c.isSpace(x) || x == sep
  }

  /** `re.sub(r'[^\w\s' + sep + ']', '', s)`. */
  function Filter(c: Classes, sep: char, s: string): (r: string)
    ensures forall i :: 0 <= i < |r| ==> Kept(c, sep, r[i])
    ensures forall x :: x in r ==> x in s
  {
    if s == [] then []
    else (if Kept(c, sep, s[0]) then [s[0]] else []) + Filter(c, sep, s[1..])
  }

  /** A string made only of characters outside the three classes is deleted
      entirely. */
  lemma {:induction false} FilterDropsAll(c: Classes, sep: char, s: string)
    requires forall i :: 0 <= i < |s| ==> !Kept(c, sep, s[i])
    ensures Filter(c, sep, s) == []
  {
    if s != [] {
      FilterDropsAll(c, sep, s[1..]);
    }
  }

  lemma {:induction false} FilterKeepsAll(c: Classes, sep: char, s: string)
    requires forall i :: 0 <= i < |s| ==> Kept(c, sep, s[i])
    ensures Filter(c, sep, s) == s
  {
    if s != [] {
      FilterKeepsAll(c, sep, s[1..]);
    }
  }

  // ---------------------------------------------------------------- step 2

  /** The longest suffix of `s` that does not start with whitespace. */
  function TrimStart(c: Classes, s: string): (r: string)
    ensures |r| <= |s| && r == s[|s| - |r|..]
    ensures r != [] ==> !c.isSpace(r[0])
    ensures forall i :: 0 <= i < |s| - |r| ==> c.isSpace(s[i])
    ensures forall x :: x in r ==> x in s
  {
    if s != [] && c.isSpace(s[0]) then TrimStart(c, s[1..]) else s
  }

  /** The longest prefix of `s` that does not end with whitespace. */
  function TrimEnd(c: Classes, s: string): (r: string)
    ensures |r| <= |s| && r == s[..|r|]
    ensures r != [] ==> !c.isSpace(r[|r| - 1])
    ensures forall i :: |r| <= i < |s| ==> c.isSpace(s[i])
    ensures forall x :: x in r ==> x in s
  {
    if s != [] && c.isSpace(s[|s| - 1]) then TrimEnd(c, s[..|s| - 1]) else s
  }

  /** `s.strip()`: whitespace removed from both ends (only whitespace: a
      leading or trailing separator stays). */
  function Strip(c: Classes, s: string): (r: string)
    ensures r != [] ==> !c.isSpace(r[0]) && !c.isSpace(r[|r| - 1])
    ensures forall x :: x in r ==> x in s
  {
    TrimEnd(c, TrimStart(c, s))
  }

  lemma StripNoSpace(c: Classes, s: string)
    requires forall i :: 0 <= i < |s| ==> !c.isSpace(s[i])
    ensures Strip(c, s) == s
  {
  }

  /** `strip()` of a string made only of whitespace is empty. */
  lemma {:induction false} StripAllSpace(c: Classes, s: string)
    requires forall i :: 0 <= i < |s| ==> c.isSpace(s[i])
    ensures Strip(c, s) == []
  {
    if s != [] {
      StripAllSpace(c, s[1..]);
    }
  }

  /** `s.lower()`: the result has the length of `s`, each character keeps
      its class, and each is its own lower case. */
  function Lower(c: Classes, s: string): (r: string)
    ensures |r| == |s|
    ensures Sane(c) ==> forall i :: 0 <= i < |r| ==>
              c.isWord(r[i]) == c.isWord(s[i]) && c.isSpace(r[i]) == c.isSpace(s[i]) && c.lower(r[i]) == r[i]
  {
    seq(|s|, i requires 0 <= i < |s| => c.lower(s[i]))
  }

  // ---------------------------------------------------------------- step 3

  /** No two separators side by side. */
  predicate NoDoubleSeparator(sep: char, s: string) {
    forall i :: 0 <= i < |s| - 1 ==> !(s[i] == sep && s[i + 1] == sep)
  }

  predicate InRun(c: Classes, sep: char, x: char) {
    x == sep || c.isSpace(x)
  }

  /** `re.sub('[' + sep + '\s]+', sep, s)`, scanning left to right:
      the first character of a run of separator and whitespace characters
      becomes one separator, the rest of the run is dropped, and every
      other character is kept.  `inRun` says whether the scan is inside a
      run already. */
  function Squeeze(c: Classes, sep: char, s: string, inRun: bool): string {
    if s == [] then []
    else if InRun(c, sep, s[0]) then (if inRun then [] else [sep]) + Squeeze(c, sep, s[1..], true)
    else [s[0]] + Squeeze(c, sep, s[1..], false)
  }

  /** Step 3 from the start of the string: no two separators are left side
      by side, and every character is the separator or a character of `s`
      outside any run. */
  function Collapse(c: Classes, sep: char, s: string): (r: string)
    ensures NoDoubleSeparator(sep, r)
    ensures forall x :: x in r ==> x == sep || (!InRun(c, sep, x) && x in s)
  {
    SqueezeNoDouble(c, sep, s, false);
    SqueezeCharacters(c, sep, s, false);
    Squeeze(c, sep, s, false)
  }

  /** Every character of the result is the separator, or a character of the
      input outside any run. */
  lemma {:induction false} SqueezeCharacters(c: Classes, sep: char, s: string, inRun: bool)
    ensures forall x :: x in Squeeze(c, sep, s, inRun) ==> x == sep || (!InRun(c, sep, x) && x in s)
  {
    if s != [] {
      SqueezeCharacters(c, sep, s[1..], InRun(c, sep, s[0]));
    }
  }

  /** No two separators end up side by side, and inside a run the result
      does not start with one. */
  lemma {:induction false} SqueezeNoDouble(c: Classes, sep: char, s: string, inRun: bool)
    ensures NoDoubleSeparator(sep, Squeeze(c, sep, s, inRun))
    ensures inRun && Squeeze(c, sep, s, inRun) != [] ==> Squeeze(c, sep, s, inRun)[0] != sep
  {
    if s != [] {
      var r := Squeeze(c, sep, s, inRun);
      var rest := Squeeze(c, sep, s[1..], InRun(c, sep, s[0]));
      SqueezeNoDouble(c, sep, s[1..], InRun(c, sep, s[0]));
      if InRun(c, sep, s[0]) && inRun {
        assert r == rest;
      } else {
        assert r == [r[0]] + rest;
        assert forall i :: 0 < i < |r| ==> r[i] == rest[i - 1];
      }
    }
  }

  /** A string without whitespace and without two separators in a row is
      left as it is. */
  lemma {:induction false} SqueezeFixed(c: Classes, sep: char, s: string, inRun: bool)
    requires forall i :: 0 <= i < |s| ==> !c.isSpace(s[i])
    requires NoDoubleSeparator(sep, s)
    requires inRun && s != [] ==> s[0] != sep
    ensures Squeeze(c, sep, s, inRun) == s
  {
    if s != [] {
      SqueezeFixed(c, sep, s[1..], InRun(c, sep, s[0]));
    }
  }

  /** A whole run of separator and whitespace characters becomes exactly one
      separator, or nothing when the scan is already inside a run. */
  lemma {:induction false} SqueezeRun(c: Classes, sep: char, r: string)
    requires r != [] && forall i :: 0 <= i < |r| ==> InRun(c, sep, r[i])
    ensures Squeeze(c, sep, r, false) == [sep]
    ensures Squeeze(c, sep, r, true) == []
  {
    if |r| > 1 {
      SqueezeRun(c, sep, r[1..]);
    }
  }

  /** Whether the scan is inside a run once it has read `s`. */
  function RunAfter(c: Classes, sep: char, s: string, inRun: bool): bool {
    if s == [] then inRun else InRun(c, sep, s[|s| - 1])
  }

  /** Squeezing works piece by piece. */
  lemma {:induction false} SqueezeAppend(c: Classes, sep: char, a: string, b: string, inRun: bool)
    ensures Squeeze(c, sep, a + b, inRun) == Squeeze(c, sep, a, inRun) + Squeeze(c, sep, b, RunAfter(c, sep, a, inRun))
  {
    if a == [] {
      assert a + b == b;
    } else {
      assert (a + b)[0] == a[0] && (a + b)[1..] == a[1..] + b;
      SqueezeAppend(c, sep, a[1..], b, InRun(c, sep, a[0]));
    }
  }

  lemma {:induction false} FilterAppend(c: Classes, sep: char, a: string, b: string)
    ensures Filter(c, sep, a + b) == Filter(c, sep, a) + Filter(c, sep, b)
  {
    if a == [] {
      assert a + b == b;
    } else {
      assert (a + b)[0] == a[0] && (a + b)[1..] == a[1..] + b;
      FilterAppend(c, sep, a[1..], b);
    }
  }

  lemma LowerAppend(c: Classes, a: string, b: string)
    ensures Lower(c, a + b) == Lower(c, a) + Lower(c, b)
  {
  }

  /** `strip()` removes exactly the whitespace around the first and last
      character that is not whitespace. */
  lemma StripFrame(c: Classes, front: string, middle: string, back: string)
    requires forall i :: 0 <= i < |front| ==> c.isSpace(front[i])
    requires forall i :: 0 <= i < |back| ==> c.isSpace(back[i])
    requires middle != [] && !c.isSpace(middle[0]) && !c.isSpace(middle[|middle| - 1])
    ensures Strip(c, front + middle + back) == middle
  {
    TrimStartFrame(c, front, middle + back);
    assert front + middle + back == front + (middle + back);
    TrimEndFrame(c, middle, back);
  }

  lemma {:induction false} TrimStartFrame(c: Classes, front: string, rest: string)
    requires forall i :: 0 <= i < |front| ==> c.isSpace(front[i])
    requires rest != [] && !c.isSpace(rest[0])
    ensures TrimStart(c, front + rest) == rest
  {
    if front != [] {
      assert (front + rest)[1..] == front[1..] + rest;
      TrimStartFrame(c, front[1..], rest);
    }
  }

  lemma {:induction false} TrimEndFrame(c: Classes, rest: string, back: string)
    requires forall i :: 0 <= i < |back| ==> c.isSpace(back[i])
    requires rest != [] && !c.isSpace(rest[|rest| - 1])
    ensures TrimEnd(c, rest + back) == rest
  {
    if back != [] {
      var s := rest + back;
      assert s[..|s| - 1] == rest + back[..|back| - 1];
      TrimEndFrame(c, rest, back[..|back| - 1]);
    }
  }

  // -------------------------------------------------------------- pipeline

  /** `unicode_slugify(s, separator)`. */
  function UnicodeSlugify(c: Classes, s: string, sep: char): string
    requires SafeSeparator(sep)
  {
    Collapse(c, sep, Lower(c, Strip(c, Filter(c, sep, s))))
  }

  /** What is left after steps 1 and 2 is word characters, whitespace and
      separators only. */
  lemma Prepared(c: Classes, sep: char, s: string)
    requires Sane(c) && (c.lower(sep) == sep || c.isWord(sep))
    ensures var t := Lower(c, Strip(c, Filter(c, sep, s)));
            forall x :: x in t ==> Kept(c, sep, x) && c.lower(x) == x
  {
    var f := Filter(c, sep, s);
    var t := Lower(c, Strip(c, f));
    forall x | x in t ensures Kept(c, sep, x) && c.lower(x) == x {
      var i :| 0 <= i < |t| && t[i] == x;
      var y := Strip(c, f)[i];
      assert y in f;
      var j :| 0 <= j < |f| && f[j] == y;
      assert Kept(c, sep, f[j]);
    }
  }

  /** Every character of a slug is a word character or the separator.  A
      separator that is a word character may be lowered to another word
      character by step 2. */
  lemma SlugCharacters(c: Classes, s: string, sep: char)
    requires SafeSeparator(sep) && Sane(c) && (c.lower(sep) == sep || c.isWord(sep))
    ensures forall x :: x in UnicodeSlugify(c, s, sep) ==> c.isWord(x) || x == sep
  {
    var t := Lower(c, Strip(c, Filter(c, sep, s)));
    Prepared(c, sep, s);
    SqueezeCharacters(c, sep, t, false);
  }

  /** A slug holds no whitespace, provided the separator is not whitespace. */
  lemma SlugNoSpace(c: Classes, s: string, sep: char)
    requires SafeSeparator(sep) && !c.isSpace(sep)
    ensures forall x :: x in UnicodeSlugify(c, s, sep) ==> !c.isSpace(x)
  {
    SqueezeCharacters(c, sep, Lower(c, Strip(c, Filter(c, sep, s))), false);
  }

  /** A slug never holds two separators in a row. */
  lemma SlugNoDoubleSeparator(c: Classes, s: string, sep: char)
    requires SafeSeparator(sep)
    ensures NoDoubleSeparator(sep, UnicodeSlugify(c, s, sep))
  {
    var t := Lower(c, Strip(c, Filter(c, sep, s)));
    var r := Squeeze(c, sep, t, false);
    SqueezeNoDouble(c, sep, t, false);
    assert UnicodeSlugify(c, s, sep) == r;
  }

  /** A slug is in lower case: lowering changes none of its characters. */
  lemma SlugLowerCase(c: Classes, s: string, sep: char)
    requires SafeSeparator(sep) && Sane(c) && c.lower(sep) == sep
    ensures Lower(c, UnicodeSlugify(c, s, sep)) == UnicodeSlugify(c, s, sep)
  {
    var t := Lower(c, Strip(c, Filter(c, sep, s)));
    Prepared(c, sep, s);
    SqueezeCharacters(c, sep, t, false);
  }

  /** Slugifying a slug gives it back. */
  lemma SlugIdempotent(c: Classes, s: string, sep: char)
    requires SafeSeparator(sep) && Sane(c) && c.lower(sep) == sep && !c.isSpace(sep)
    ensures UnicodeSlugify(c, UnicodeSlugify(c, s, sep), sep) == UnicodeSlugify(c, s, sep)
  {
    var r := UnicodeSlugify(c, s, sep);
    SlugCharacters(c, s, sep);
    SlugNoSpace(c, s, sep);
    SlugNoDoubleSeparator(c, s, sep);
    SlugLowerCase(c, s, sep);
    FilterKeepsAll(c, sep, r);
    StripNoSpace(c, r);
    SqueezeFixed(c, sep, r, false);
  }

  // ------------------------------------------------- the normalising variants

  /** The classes of `re` without `re.U`, `str.strip()` and `str.lower()`
      on a byte string: ASCII letters, digits and underscore; the six ASCII
      whitespace characters; ASCII upper case lowered. */
  function Ascii(): Classes {
    Classes(
      x => 'a' <= x <= 'z' || 'A' <= x <= 'Z' || '0' <= x <= '9' || x == '_',
      x => x == ' ' || x == '\t' || x == '\n' || x == '\r' || x as int == 11 || x as int == 12,
      x => if 'A' <= x <= 'Z' then (x as int + 32) as char else x)
  }

  lemma AsciiSane()
    ensures Sane(Ascii())
  {
  }

  predicate IsAscii(x: char) {
    x as int < 128
  }

  /** `.encode('ascii', 'ignore')`: every non-ASCII character dropped. */
  function EncodeAsciiIgnore(s: string): (r: string)
    ensures forall x :: x in r <==> x in s && IsAscii(x)
    ensures |r| <= |s|
    ensures (forall i :: 0 <= i < |s| ==> IsAscii(s[i])) ==> r == s
  {
    if s == [] then []
    else (if IsAscii(s[0]) then [s[0]] else []) + EncodeAsciiIgnore(s[1..])
  }

  /** Dropping works piece by piece, so the kept characters stay in their
      order and with their multiplicity. */
  lemma {:induction false} EncodeAsciiIgnoreAppend(a: string, b: string)
    ensures EncodeAsciiIgnore(a + b) == EncodeAsciiIgnore(a) + EncodeAsciiIgnore(b)
  {
    if a == [] {
      assert a + b == b;
    } else {
      assert (a + b)[0] == a[0] && (a + b)[1..] == a[1..] + b;
      EncodeAsciiIgnoreAppend(a[1..], b);
    }
  }

  /** `unicodedata_slugify(s, separator)`: NFKD normalisation (`nfkd`, a
      function of the Unicode database), non-ASCII characters dropped, then
      the pipeline on the byte string. */
  function UnicodedataSlugify(nfkd: string -> string, s: string, sep: char): string
    requires SafeSeparator(sep)
  {
    UnicodeSlugify(Ascii(), EncodeAsciiIgnore(nfkd(s)), sep)
  }

  /** `unidecode_slugify(s, separator)`: transliteration by the `unidecode`
      library (`transliterate`), then the pipeline on the byte string. */
  function UnidecodeSlugify(transliterate: string -> string, s: string, sep: char): string
    requires SafeSeparator(sep)
  {
    UnicodeSlugify(Ascii(), transliterate(s), sep)
  }

  /** Whatever the normalisation and the separator, the two normalising
      variants give ASCII letters, digits, underscores and separators only. */
  lemma NormalisedSlugCharacters(nfkd: string -> string, transliterate: string -> string, s: string, sep: char)
    requires SafeSeparator(sep)
    ensures forall x :: x in UnicodedataSlugify(nfkd, s, sep) ==> Ascii().isWord(x) || x == sep
    ensures forall x :: x in UnidecodeSlugify(transliterate, s, sep) ==> Ascii().isWord(x) || x == sep
  {
    AsciiSane();
    SlugCharacters(Ascii(), EncodeAsciiIgnore(nfkd(s)), sep);
    SlugCharacters(Ascii(), transliterate(s), sep);
  }

  // The docstring examples, on ASCII input.  The input is cut once into
  // pieces of at most five characters; every step of the pipeline is worked
  // out piece by piece and the pieces are joined with the append lemmas
  // above.

  // Step 1 on each piece of the first example.
  lemma DashesFilterStep0()
    ensures Filter(Ascii(), '-', "\t") == "\t"
  {
    FilterKeepsAll(Ascii(), '-', "\t");
  }

  lemma DashesFilterStep1()
    ensures Filter(Ascii(), '-', "Stuff") == "Stuff"
  {
    FilterKeepsAll(Ascii(), '-', "Stuff");
  }

  lemma DashesFilterStep2()
    ensures Filter(Ascii(), '-', " with") == " with"
  {
    FilterKeepsAll(Ascii(), '-', " with");
  }

  lemma DashesFilterStep3()
    ensures Filter(Ascii(), '-', " -- d") == " -- d"
  {
    FilterKeepsAll(Ascii(), '-', " -- d");
  }

  lemma DashesFilterStep4()
    ensures Filter(Ascii(), '-', "ashes") == "ashes"
  {
    FilterKeepsAll(Ascii(), '-', "ashes");
  }

  lemma DashesFilterStep5()
    ensures Filter(Ascii(), '-', " and.") == " and"
  {
    assert " and." == " and" + ".";
    FilterAppend(Ascii(), '-', " and", ".");
    FilterKeepsAll(Ascii(), '-', " and");
    FilterDropsAll(Ascii(), '-', ".");
  }

  lemma DashesFilterStep6()
    ensures Filter(Ascii(), '-', "..   ") == "   "
  {
    assert "..   " == ".." + "   ";
    FilterAppend(Ascii(), '-', "..", "   ");
    FilterDropsAll(Ascii(), '-', "..");
    FilterKeepsAll(Ascii(), '-', "   ");
  }

  lemma DashesFilterStep7()
    ensures Filter(Ascii(), '-', "space") == "space"
  {
    FilterKeepsAll(Ascii(), '-', "space");
  }

  lemma DashesFilterStep8()
    ensures Filter(Ascii(), '-', "s") == "s"
  {
    FilterKeepsAll(Ascii(), '-', "s");
  }

  lemma DashesFilterStep9()
    ensures Filter(Ascii(), '-', "   \n") == "   \n"
  {
    FilterKeepsAll(Ascii(), '-', "   \n");
  }

  lemma DashesFilter()
    ensures Filter(Ascii(), '-', "\t" + ("Stuff" + (" with" + (" -- d" + ("ashes" + (" and." + ("..   " + ("space" + "s"))))))) + "   \n")
            == "\t" + ("Stuff" + (" with" + (" -- d" + ("ashes" + (" and" + ("   " + ("space" + "s"))))))) + "   \n"
  {
    FilterAppend(Ascii(), '-', "\t" + ("Stuff" + (" with" + (" -- d" + ("ashes" + (" and." + ("..   " + ("space" + "s"))))))), "   \n");
    FilterAppend(Ascii(), '-', "\t", "Stuff" + (" with" + (" -- d" + ("ashes" + (" and." + ("..   " + ("space" + "s")))))));
    FilterAppend(Ascii(), '-', "Stuff", " with" + (" -- d" + ("ashes" + (" and." + ("..   " + ("space" + "s"))))));
    FilterAppend(Ascii(), '-', " with", " -- d" + ("ashes" + (" and." + ("..   " + ("space" + "s")))));
    FilterAppend(Ascii(), '-', " -- d", "ashes" + (" and." + ("..   " + ("space" + "s"))));
    FilterAppend(Ascii(), '-', "ashes", " and." + ("..   " + ("space" + "s")));
    FilterAppend(Ascii(), '-', " and.", "..   " + ("space" + "s"));
    FilterAppend(Ascii(), '-', "..   ", "space" + "s");
    FilterAppend(Ascii(), '-', "space", "s");
    DashesFilterStep0();
    DashesFilterStep1();
    DashesFilterStep2();
    DashesFilterStep3();
    DashesFilterStep4();
    DashesFilterStep5();
    DashesFilterStep6();
    DashesFilterStep7();
    DashesFilterStep8();
    DashesFilterStep9();
  }

  lemma DashesLower()
    ensures Lower(Ascii(), "Stuff" + (" with" + (" -- d" + ("ashes" + (" and" + ("   " + ("space" + "s"))))))) == "stuff" + (" with" + (" -- d" + ("ashes" + (" and" + ("   " + ("space" + "s"))))))
  {
    LowerAppend(Ascii(), "Stuff", " with" + (" -- d" + ("ashes" + (" and" + ("   " + ("space" + "s"))))));
    LowerAppend(Ascii(), " with", " -- d" + ("ashes" + (" and" + ("   " + ("space" + "s")))));
    LowerAppend(Ascii(), " -- d", "ashes" + (" and" + ("   " + ("space" + "s"))));
    LowerAppend(Ascii(), "ashes", " and" + ("   " + ("space" + "s")));
    LowerAppend(Ascii(), " and", "   " + ("space" + "s"));
    LowerAppend(Ascii(), "   ", "space" + "s");
    LowerAppend(Ascii(), "space", "s");
    assert Lower(Ascii(), "Stuff") == "stuff";
    assert Lower(Ascii(), " with") == " with";
    assert Lower(Ascii(), " -- d") == " -- d";
    assert Lower(Ascii(), "ashes") == "ashes";
    assert Lower(Ascii(), " and") == " and";
    assert Lower(Ascii(), "   ") == "   ";
    assert Lower(Ascii(), "space") == "space";
    assert Lower(Ascii(), "s") == "s";
  }

  // Step 3 on each piece of the first example, with the run flag each piece
  // starts in.
  lemma DashesSqueezeStep0()
    ensures Squeeze(Ascii(), '-', "stuff", false) == "stuff"
  {
    SqueezeFixed(Ascii(), '-', "stuff", false);
  }

  lemma DashesSqueezeStep1()
    ensures Squeeze(Ascii(), '-', " with", false) == "-with"
  {
    assert " with" == " " + "with";
    SqueezeAppend(Ascii(), '-', " ", "with", false);
    SqueezeRun(Ascii(), '-', " ");
    SqueezeFixed(Ascii(), '-', "with", true);
  }

  lemma DashesSqueezeStep2()
    ensures Squeeze(Ascii(), '-', " -- d", false) == "-d"
  {
    assert " -- d" == " -- " + "d";
    SqueezeAppend(Ascii(), '-', " -- ", "d", false);
    SqueezeRun(Ascii(), '-', " -- ");
    SqueezeFixed(Ascii(), '-', "d", true);
  }

  lemma DashesSqueezeStep3()
    ensures Squeeze(Ascii(), '-', "ashes", false) == "ashes"
  {
    SqueezeFixed(Ascii(), '-', "ashes", false);
  }

  lemma DashesSqueezeStep4()
    ensures Squeeze(Ascii(), '-', " and", false) == "-and"
  {
    assert " and" == " " + "and";
    SqueezeAppend(Ascii(), '-', " ", "and", false);
    SqueezeRun(Ascii(), '-', " ");
    SqueezeFixed(Ascii(), '-', "and", true);
  }

  lemma DashesSqueezeStep5()
    ensures Squeeze(Ascii(), '-', "   ", false) == "-"
  {
    SqueezeRun(Ascii(), '-', "   ");
  }

  lemma DashesSqueezeStep6()
    ensures Squeeze(Ascii(), '-', "space", true) == "space"
  {
    SqueezeFixed(Ascii(), '-', "space", true);
  }

  lemma DashesSqueezeStep7()
    ensures Squeeze(Ascii(), '-', "s", false) == "s"
  {
    SqueezeFixed(Ascii(), '-', "s", false);
  }

  lemma DashesSqueezeTail()
    ensures Squeeze(Ascii(), '-', " and" + ("   " + ("space" + "s")), false) == "-and" + ("-" + ("space" + "s"))
  {
    SqueezeAppend(Ascii(), '-', " and", "   " + ("space" + "s"), false);
    SqueezeAppend(Ascii(), '-', "   ", "space" + "s", false);
    SqueezeAppend(Ascii(), '-', "space", "s", true);
    DashesSqueezeStep4();
    DashesSqueezeStep5();
    DashesSqueezeStep6();
    DashesSqueezeStep7();
  }

  lemma DashesSqueeze()
    ensures Squeeze(Ascii(), '-', "stuff" + (" with" + (" -- d" + ("ashes" + (" and" + ("   " + ("space" + "s")))))), false) == "stuff" + ("-with" + ("-d" + ("ashes" + ("-and" + ("-" + ("space" + "s"))))))
  {
    SqueezeAppend(Ascii(), '-', "stuff", " with" + (" -- d" + ("ashes" + (" and" + ("   " + ("space" + "s"))))), false);
    SqueezeAppend(Ascii(), '-', " with", " -- d" + ("ashes" + (" and" + ("   " + ("space" + "s")))), false);
    SqueezeAppend(Ascii(), '-', " -- d", "ashes" + (" and" + ("   " + ("space" + "s"))), false);
    SqueezeAppend(Ascii(), '-', "ashes", " and" + ("   " + ("space" + "s")), false);
    DashesSqueezeStep0();
    DashesSqueezeStep1();
    DashesSqueezeStep2();
    DashesSqueezeStep3();
    DashesSqueezeTail();
  }

  // How the first example's input and output strings split into the pieces.
  lemma DashesSplit0()
    ensures "\tStuff with -- dashes and...   spaces   \n" == "\tStuff with -- dashes and...   spaces" + "   \n"
  {
  }

  lemma DashesSplit1()
    ensures "\tStuff with -- dashes and...   spaces" == "\t" + "Stuff with -- dashes and...   spaces"
  {
  }

  lemma DashesSplit2()
    ensures "Stuff with -- dashes and...   spaces" == "Stuff" + " with -- dashes and...   spaces"
  {
  }

  lemma DashesSplit3()
    ensures " with -- dashes and...   spaces" == " with" + " -- dashes and...   spaces"
  {
  }

  lemma DashesSplit4()
    ensures " -- dashes and...   spaces" == " -- d" + "ashes and...   spaces"
  {
  }

  lemma DashesSplit5()
    ensures "ashes and...   spaces" == "ashes" + " and...   spaces"
  {
  }

  lemma DashesSplit6()
    ensures " and...   spaces" == " and." + "..   spaces"
  {
  }

  lemma DashesSplit7()
    ensures "..   spaces" == "..   " + "spaces"
  {
  }

  lemma DashesSplit8()
    ensures "spaces" == "space" + "s"
  {
  }

  lemma DashesSplit9()
    ensures "stuff-with-dashes-and-spaces" == "stuff" + "-with-dashes-and-spaces"
  {
  }

  lemma DashesSplit10()
    ensures "-with-dashes-and-spaces" == "-with" + "-dashes-and-spaces"
  {
  }

  lemma DashesSplit11()
    ensures "-dashes-and-spaces" == "-d" + "ashes-and-spaces"
  {
  }

  lemma DashesSplit12()
    ensures "ashes-and-spaces" == "ashes" + "-and-spaces"
  {
  }

  lemma DashesSplit13()
    ensures "-and-spaces" == "-and" + "-spaces"
  {
  }

  lemma DashesSplit14()
    ensures "-spaces" == "-" + "spaces"
  {
  }

  /** The docstring example that calls `unidecode_slugify` with the default
      separator, stated for the pipeline on the ASCII classes. */
  lemma ExampleDashes()
    ensures UnicodeSlugify(Ascii(), "\tStuff with -- dashes and...   spaces   \n", '-') == "stuff-with-dashes-and-spaces"
  {
    DashesSplit0();
    DashesSplit1();
    DashesSplit2();
    DashesSplit3();
    DashesSplit4();
    DashesSplit5();
    DashesSplit6();
    DashesSplit7();
    DashesSplit8();
    DashesSplit9();
    DashesSplit10();
    DashesSplit11();
    DashesSplit12();
    DashesSplit13();
    DashesSplit14();
    DashesFilter();
    StripFrame(Ascii(), "\t", "Stuff" + (" with" + (" -- d" + ("ashes" + (" and" + ("   " + ("space" + "s")))))), "   \n");
    DashesLower();
    DashesSqueeze();
  }

  // Step 1 on each piece of the second example.
  lemma UnderscoreFilterStep0()
    ensures Filter(Ascii(), '_', "Bonjo") == "Bonjo"
  {
    FilterKeepsAll(Ascii(), '_', "Bonjo");
  }

  lemma UnderscoreFilterStep1()
    ensures Filter(Ascii(), '_', "out l") == "out l"
  {
    FilterKeepsAll(Ascii(), '_', "out l");
  }

  lemma UnderscoreFilterStep2()
    ensures Filter(Ascii(), '_', "'mond") == "mond"
  {
    assert "'mond" == "'" + "mond";
    FilterAppend(Ascii(), '_', "'", "mond");
    FilterDropsAll(Ascii(), '_', "'");
    FilterKeepsAll(Ascii(), '_', "mond");
  }

  lemma UnderscoreFilterStep3()
    ensures Filter(Ascii(), '_', "e") == "e"
  {
    FilterKeepsAll(Ascii(), '_', "e");
  }

  lemma UnderscoreFilterStep4()
    ensures Filter(Ascii(), '_', " !") == " "
  {
    assert " !" == " " + "!";
    FilterAppend(Ascii(), '_', " ", "!");
    FilterKeepsAll(Ascii(), '_', " ");
    FilterDropsAll(Ascii(), '_', "!");
  }


  lemma UnderscoreFilterStep5()
    ensures Filter(Ascii(), '_', "ur, t") == "ur t"
  {
    assert "ur, t" == "ur" + ("," + " t");
    FilterAppend(Ascii(), '_', "ur", "," + " t");
    FilterAppend(Ascii(), '_', ",", " t");
    FilterKeepsAll(Ascii(), '_', "ur");
    FilterDropsAll(Ascii(), '_', ",");
    FilterKeepsAll(Ascii(), '_', " t");
  }

  lemma UnderscoreFilter()
    ensures Filter(Ascii(), '_', "" + ("Bonjo" + ("ur, t" + ("out l" + ("'mond" + "e")))) + " !")
            == "" + ("Bonjo" + ("ur t" + ("out l" + ("mond" + "e")))) + " "
  {
    FilterAppend(Ascii(), '_', "" + ("Bonjo" + ("ur, t" + ("out l" + ("'mond" + "e")))), " !");
    FilterAppend(Ascii(), '_', "", "Bonjo" + ("ur, t" + ("out l" + ("'mond" + "e"))));
    FilterAppend(Ascii(), '_', "Bonjo", "ur, t" + ("out l" + ("'mond" + "e")));
    FilterAppend(Ascii(), '_', "ur, t", "out l" + ("'mond" + "e"));
    FilterAppend(Ascii(), '_', "out l", "'mond" + "e");
    FilterAppend(Ascii(), '_', "'mond", "e");
    UnderscoreFilterStep0();
    UnderscoreFilterStep1();
    UnderscoreFilterStep2();
    UnderscoreFilterStep3();
    UnderscoreFilterStep4();
    UnderscoreFilterStep5();
  }

  lemma UnderscoreLower()
    ensures Lower(Ascii(), "Bonjo" + ("ur t" + ("out l" + ("mond" + "e")))) == "bonjo" + ("ur t" + ("out l" + ("mond" + "e")))
  {
    LowerAppend(Ascii(), "Bonjo", "ur t" + ("out l" + ("mond" + "e")));
    LowerAppend(Ascii(), "ur t", "out l" + ("mond" + "e"));
    LowerAppend(Ascii(), "out l", "mond" + "e");
    LowerAppend(Ascii(), "mond", "e");
    assert Lower(Ascii(), "Bonjo") == "bonjo";
    assert Lower(Ascii(), "ur t") == "ur t";
    assert Lower(Ascii(), "out l") == "out l";
    assert Lower(Ascii(), "mond") == "mond";
    assert Lower(Ascii(), "e") == "e";
  }

  // Step 3 on each piece of the second example.
  lemma UnderscoreSqueezeStep0()
    ensures Squeeze(Ascii(), '_', "bonjo", false) == "bonjo"
  {
    SqueezeFixed(Ascii(), '_', "bonjo", false);
  }

  lemma UnderscoreSqueezeStep1()
    ensures Squeeze(Ascii(), '_', "ur t", false) == "ur_t"
  {
    assert "ur t" == "ur" + (" " + "t");
    SqueezeAppend(Ascii(), '_', "ur", " " + "t", false);
    SqueezeFixed(Ascii(), '_', "ur", false);
    UnderscoreSqueezeGap1();
  }

  lemma UnderscoreSqueezeGap1()
    ensures Squeeze(Ascii(), '_', " " + "t", false) == "_t"
  {
    SqueezeAppend(Ascii(), '_', " ", "t", false);
    SqueezeRun(Ascii(), '_', " ");
    SqueezeFixed(Ascii(), '_', "t", true);
  }

  lemma UnderscoreSqueezeStep2()
    ensures Squeeze(Ascii(), '_', "out l", false) == "out_l"
  {
    assert "out l" == "out" + (" " + "l");
    SqueezeAppend(Ascii(), '_', "out", " " + "l", false);
    SqueezeFixed(Ascii(), '_', "out", false);
    UnderscoreSqueezeGap2();
  }

  lemma UnderscoreSqueezeGap2()
    ensures Squeeze(Ascii(), '_', " " + "l", false) == "_l"
  {
    SqueezeAppend(Ascii(), '_', " ", "l", false);
    SqueezeRun(Ascii(), '_', " ");
    SqueezeFixed(Ascii(), '_', "l", true);
  }

  lemma UnderscoreSqueezeStep3()
    ensures Squeeze(Ascii(), '_', "mond", false) == "mond"
  {
    SqueezeFixed(Ascii(), '_', "mond", false);
  }

  lemma UnderscoreSqueezeStep4()
    ensures Squeeze(Ascii(), '_', "e", false) == "e"
  {
    SqueezeFixed(Ascii(), '_', "e", false);
  }

  lemma UnderscoreSqueeze()
    ensures Squeeze(Ascii(), '_', "bonjo" + ("ur t" + ("out l" + ("mond" + "e"))), false) == "bonjo" + ("ur_t" + ("out_l" + ("mond" + "e")))
  {
    SqueezeAppend(Ascii(), '_', "bonjo", "ur t" + ("out l" + ("mond" + "e")), false);
    SqueezeAppend(Ascii(), '_', "ur t", "out l" + ("mond" + "e"), false);
    SqueezeAppend(Ascii(), '_', "out l", "mond" + "e", false);
    SqueezeAppend(Ascii(), '_', "mond", "e", false);
    UnderscoreSqueezeStep0();
    UnderscoreSqueezeStep1();
    UnderscoreSqueezeStep2();
    UnderscoreSqueezeStep3();
    UnderscoreSqueezeStep4();
  }

  // How the second example's input and output strings split into the pieces.
  lemma UnderscoreSplit0()
    ensures "Bonjour, tout l'monde !" == "" + "Bonjour, tout l'monde" + " !"
  {
  }

  lemma UnderscoreSplit1()
    ensures "Bonjour, tout l'monde" == "Bonjo" + "ur, tout l'monde"
  {
  }

  lemma UnderscoreSplit2()
    ensures "ur, tout l'monde" == "ur, t" + "out l'monde"
  {
  }

  lemma UnderscoreSplit3()
    ensures "out l'monde" == "out l" + "'monde"
  {
  }

  lemma UnderscoreSplit4()
    ensures "'monde" == "'mond" + "e"
  {
  }

  lemma UnderscoreSplit5()
    ensures "bonjour_tout_lmonde" == "bonjo" + "ur_tout_lmonde"
  {
  }

  lemma UnderscoreSplit6()
    ensures "ur_tout_lmonde" == "ur_t" + "out_lmonde"
  {
  }

  lemma UnderscoreSplit7()
    ensures "out_lmonde" == "out_l" + "monde"
  {
  }

  lemma UnderscoreSplit8()
    ensures "monde" == "mond" + "e"
  {
  }

  /** The docstring example that calls `unidecode_slugify` with `_` as the
      separator, stated for the pipeline on the ASCII classes. */
  lemma ExampleUnderscore()
    ensures UnicodeSlugify(Ascii(), "Bonjour, tout l'monde !", '_') == "bonjour_tout_lmonde"
  {
    UnderscoreSplit0();
    UnderscoreSplit1();
    UnderscoreSplit2();
    UnderscoreSplit3();
    UnderscoreSplit4();
    UnderscoreSplit5();
    UnderscoreSplit6();
    UnderscoreSplit7();
    UnderscoreSplit8();
    UnderscoreFilter();
    StripFrame(Ascii(), "", "Bonjo" + ("ur t" + ("out l" + ("mond" + "e"))), " ");
    UnderscoreLower();
    UnderscoreSqueeze();
  }

  /** The docstring examples call `unidecode_slugify`; on ASCII input the
      transliteration leaves the text as it is, so they are the examples
      above. */
  lemma ExamplesUnidecode(transliterate: string -> string)
    requires transliterate("\tStuff with -- dashes and...   spaces   \n") == "\tStuff with -- dashes and...   spaces   \n"
    requires transliterate("Bonjour, tout l'monde !") == "Bonjour, tout l'monde !"
    ensures UnidecodeSlugify(transliterate, "\tStuff with -- dashes and...   spaces   \n", '-') == "stuff-with-dashes-and-spaces"
    ensures UnidecodeSlugify(transliterate, "Bonjour, tout l'monde !", '_') == "bonjour_tout_lmonde"
  {
    ExampleDashes();
    ExampleUnderscore();
  }
}
