/** How a run names its capture file, and which directory entries count as captures this
    sidecar owns. */
module CaptureNames {

  // ----- Paths (slash-separated) -----

  function TrimSlashes(path: string): (r: string)
    ensures |r| <= |path| && r == path[..|r|]
    ensures r != [] ==> r[|r| - 1] != '/'
  {
    if path == [] || path[|path| - 1] != '/' then path else TrimSlashes(path[..|path| - 1])
  }

  function AfterLastSlash(path: string): (r: string)
    ensures '/' !in r
  {
    if path == [] then []
    else if path[|path| - 1] == '/' then []
    else AfterLastSlash(path[..|path| - 1]) + [path[|path| - 1]]
  }

  /** `filepath.Base`: the last element, "." for an empty path and "/" for one of slashes only. */
  function Base(path: string): string {
    if path == [] then "."
    else if AfterLastSlash(TrimSlashes(path)) == [] then "/"
    else AfterLastSlash(TrimSlashes(path))
  }

  /** `filepath.Ext` of a name: from its last dot on, empty without one. */
  function Ext(name: string): (r: string)
    ensures |r| <= |name| && r == name[|name| - |r|..]
    ensures '/' !in r
  {
    if name == [] || name[|name| - 1] == '/' then []
    else if name[|name| - 1] == '.' then "."
    else
      var e := Ext(name[..|name| - 1]);
      if e == [] then [] else e + [name[|name| - 1]]
  }

  /** The extension and stem every run's name is built from. */
  function TemplateExt(template: string): string { Ext(Base(template)) }

  function TemplateStem(template: string): string {
    Base(template)[..|Base(template)| - |TemplateExt(template)|]
  }

  // ----- Decimal numbers -----

  predicate IsDigit(c: char) { '0' <= c <= '9' }

  predicate AllDigits(s: string) { forall i :: 0 <= i < |s| ==> IsDigit(s[i]) }

  function Digit(n: nat): char
    requires n < 10
  {
    '0' + n as char
  }

  function Decimal(n: nat): (s: string)
    ensures s != [] && AllDigits(s)
  {
    if n < 10 then [Digit(n)] else Decimal(n / 10) + [Digit(n % 10)]
  }

  lemma {:induction false} DecimalInjective(m: nat, n: nat)
    requires Decimal(m) == Decimal(n)
    ensures m == n
  {
    var s, t := Decimal(m), Decimal(n);
    assert s[|s| - 1] == Digit(m % 10) && t[|t| - 1] == Digit(n % 10);
    assert m % 10 == n % 10;
    if m >= 10 && n >= 10 {
      assert s[..|s| - 1] == Decimal(m / 10) && t[..|t| - 1] == Decimal(n / 10);
      DecimalInjective(m / 10, n / 10);
    }
  }

  // ----- Names -----

  const MAX_SUFFIX: nat := 999

  /** What comes between stem and extension: the start second and, past 0, a suffix. */
  function Middle(second: nat, n: nat): string {
    Decimal(second) + if n == 0 then [] else "-" + Decimal(n)
  }

  /** The directory entry a run creates for a start second and a suffix: the last element of
      the joined path. */
  function EntryName(template: string, second: nat, n: nat): string {
    AfterLastSlash(TemplateStem(template)) + "-" + Middle(second, n) + TemplateExt(template)
  }

  /** One run of digits, or two with a dash between them. */
  predicate IsMiddle(m: string) {
    || (m != [] && AllDigits(m))
    || exists i :: 0 < i < |m| - 1 && m[i] == '-' && AllDigits(m[..i]) && AllDigits(m[i + 1..])
  }

  /** The entry names the retention pattern matches. */
  predicate IsOwned(template: string, name: string) {
    var stem, ext := TemplateStem(template), TemplateExt(template);
    && |stem| + 1 + |ext| <= |name|
    && name[..|stem| + 1] == stem + "-"
    && name[|name| - |ext|..] == ext
    && IsMiddle(name[|stem| + 1..|name| - |ext|])
  }

  function MiddleOf(template: string, name: string): string
    requires IsOwned(template, name)
  {
    name[|TemplateStem(template)| + 1..|name| - |TemplateExt(template)|]
  }

  lemma MiddleIsMiddle(second: nat, n: nat)
    ensures IsMiddle(Middle(second, n))
  {
    var m := Middle(second, n);
    if n == 0 {
      assert m == Decimal(second);
    } else {
      var i := |Decimal(second)|;
      assert m[i] == '-' && m[..i] == Decimal(second) && m[i + 1..] == Decimal(n);
    }
  }

  lemma {:induction false} NoSlashIsWhole(s: string)
    requires '/' !in s
    ensures AfterLastSlash(s) == s
  {
    if s != [] {
      NoSlashIsWhole(s[..|s| - 1]);
    }
  }

  /** A base name is "/" alone or has no slash at all. */
  lemma BaseSlash(path: string)
    ensures Base(path) == "/" || '/' !in Base(path)
  {
  }

  /** Only a template of one or more slashes has the base name "/". */
  lemma {:induction false} SlashBase(template: string)
    ensures Base(template) == "/" <==> template != [] && forall i :: 0 <= i < |template| ==> template[i] == '/'
  {
    TrimmedToNothing(template);
  }

  lemma {:induction false} TrimmedToNothing(path: string)
    ensures TrimSlashes(path) == [] <==> forall i :: 0 <= i < |path| ==> path[i] == '/'
  {
    if path != [] && path[|path| - 1] == '/' {
      TrimmedToNothing(path[..|path| - 1]);
    }
  }

  lemma CreatedMatches(template: string, second: nat, n: nat)
    requires Base(template) != "/"
    ensures IsOwned(template, EntryName(template, second, n))
  {
    var stem, ext, middle := TemplateStem(template), TemplateExt(template), Middle(second, n);
    BaseSlash(template);
    assert '/' !in stem;
    NoSlashIsWhole(stem);
    MiddleIsMiddle(second, n);
    Parts(stem, middle, ext);
  }

  lemma Parts(stem: string, middle: string, ext: string)
    ensures var name := stem + "-" + middle + ext;
            && |stem| + 1 + |ext| <= |name| && name[..|stem| + 1] == stem + "-"
            && name[|name| - |ext|..] == ext && name[|stem| + 1..|name| - |ext|] == middle
  {
  }

  lemma SlashTemplate(template: string, second: nat, n: nat)
    requires Base(template) == "/"
    ensures !IsOwned(template, EntryName(template, second, n))
  {
    assert TemplateExt(template) == [] && TemplateStem(template) == "/";
    assert AfterLastSlash("/") == [];
    assert EntryName(template, second, n)[0] == '-';
    assert ("/" + "-")[0] == '/';
  }

  /** The names a run creates are the ones retention recognises, for every second and suffix,
      exactly when the template is not made of slashes only. */
  lemma CreatedIsOwned(template: string, second: nat, n: nat)
    ensures IsOwned(template, EntryName(template, second, n)) <==> Base(template) != "/"
  {
    if Base(template) == "/" {
      SlashTemplate(template, second, n);
    } else {
      CreatedMatches(template, second, n);
    }
  }

  lemma {:induction false} DashSplitsOnce(a: string, x: string, b: string, y: string)
    requires AllDigits(a) && AllDigits(b) && a + "-" + x == b + "-" + y
    ensures a == b && x == y
  {
    var s := a + "-" + x;
    assert s[|a|] == '-' && s[|b|] == '-';
    assert s[..|a|] == a && s[..|b|] == b;
    assert s[|a| + 1..] == x && s[|b| + 1..] == y;
  }

  lemma DashMarksSuffix(second: nat, n: nat)
    ensures '-' in Middle(second, n) <==> n != 0
  {
    if n != 0 {
      assert Middle(second, n)[|Decimal(second)|] == '-';
    }
  }

  lemma MiddleInjective(s1: nat, n1: nat, s2: nat, n2: nat)
    requires Middle(s1, n1) == Middle(s2, n2)
    ensures s1 == s2 && n1 == n2
  {
    DashMarksSuffix(s1, n1);
    DashMarksSuffix(s2, n2);
    var a, b := Decimal(s1), Decimal(s2);
    if n1 == 0 {
      assert Middle(s1, 0) == a && Middle(s2, 0) == b;
      DecimalInjective(s1, s2);
    } else {
      assert Middle(s1, n1) == a + "-" + Decimal(n1) && Middle(s2, n2) == b + "-" + Decimal(n2);
      DashSplitsOnce(a, Decimal(n1), b, Decimal(n2));
      DecimalInjective(s1, s2);
      DecimalInjective(n1, n2);
    }
  }

  /** Distinct seconds or suffixes give distinct names. */
  lemma NamesAreDistinct(template: string, s1: nat, n1: nat, s2: nat, n2: nat)
    requires EntryName(template, s1, n1) == EntryName(template, s2, n2)
    ensures s1 == s2 && n1 == n2
  {
    var front := AfterLastSlash(TemplateStem(template)) + "-";
    var ext := TemplateExt(template);
    var x, y := EntryName(template, s1, n1), EntryName(template, s2, n2);
    assert x[|front|..|x| - |ext|] == Middle(s1, n1) && y[|front|..|y| - |ext|] == Middle(s2, n2);
    MiddleInjective(s1, n1, s2, n2);
  }

  // ----- What a template gives -----

  lemma {:induction false} SuffixIsAfterSlash(dir: string, name: string)
    requires '/' !in name && (dir == [] || dir[|dir| - 1] == '/')
    ensures AfterLastSlash(dir + name) == name
  {
    var path := dir + name;
    if name == [] {
      assert path == dir;
    } else {
      var n := |name| - 1;
      SuffixIsAfterSlash(dir, name[..n]);
      assert path[..|path| - 1] == dir + name[..n] && path[|path| - 1] == name[n];
    }
  }

  lemma {:induction false} TrailingSlashesGo(path: string, slashes: string)
    requires path != [] && path[|path| - 1] != '/'
    requires forall i :: 0 <= i < |slashes| ==> slashes[i] == '/'
    ensures TrimSlashes(path + slashes) == path
  {
    if slashes == [] {
      assert path + slashes == path;
    } else {
      var n := |slashes| - 1;
      TrailingSlashesGo(path, slashes[..n]);
      assert (path + slashes)[..|path| + n] == path + slashes[..n];
    }
  }

  /** The base of a path is its last element, whatever slashes come after it. */
  lemma BaseIsLastElement(dir: string, name: string, slashes: string)
    requires name != [] && '/' !in name && (dir == [] || dir[|dir| - 1] == '/')
    requires forall i :: 0 <= i < |slashes| ==> slashes[i] == '/'
    ensures Base(dir + name + slashes) == name
  {
    assert name[|name| - 1] in name && (dir + name)[|dir + name| - 1] == name[|name| - 1];
    TrailingSlashesGo(dir + name, slashes);
    SuffixIsAfterSlash(dir, name);
  }

  lemma {:induction false} NoDotNoExt(name: string)
    requires '.' !in name
    ensures Ext(name) == []
  {
    if name != [] {
      NoDotNoExt(name[..|name| - 1]);
    }
  }

  /** The extension of a name is what starts at its last dot, and nothing without one. */
  lemma {:induction false} ExtIsFromLastDot(front: string, e: string)
    requires '/' !in e && '.' !in e
    ensures Ext(front + "." + e) == "." + e
    decreases |e|
  {
    if e == [] {
      assert front + "." + e == front + ".";
    } else {
      var n := |e| - 1;
      ExtIsFromLastDot(front, e[..n]);
      ExtGrows(front + "." + e[..n], e[n]);
      assert front + "." + e[..n] + [e[n]] == front + "." + e;
      assert "." + e[..n] + [e[n]] == "." + e;
    }
  }

  lemma ExtGrows(s: string, c: char)
    requires Ext(s) != [] && c != '/' && c != '.'
    ensures Ext(s + [c]) == Ext(s) + [c]
  {
    assert (s + [c])[..|s|] == s;
  }

  /** In full, for a template with an extension in any directory: the stem, the second, a suffix
      past 0, and the extension. */
  lemma NameOfTemplate(dir: string, stem: string, e: string, second: nat, n: nat)
    requires (dir == [] || dir[|dir| - 1] == '/') && '/' !in stem && '/' !in e && '.' !in e
    ensures EntryName(dir + (stem + "." + e), second, n) == stem + "-" + Middle(second, n) + ("." + e)
    ensures Middle(second, n) == if n == 0 then Decimal(second) else Decimal(second) + "-" + Decimal(n)
  {
    TemplateParts(dir, stem, e);
    NoSlashIsWhole(stem);
  }

  /** And without an extension, in any directory and with any slashes at the end. */
  lemma NameOfPlainTemplate(dir: string, stem: string, slashes: string, second: nat, n: nat)
    requires (dir == [] || dir[|dir| - 1] == '/') && stem != [] && '/' !in stem && '.' !in stem
    requires forall i :: 0 <= i < |slashes| ==> slashes[i] == '/'
    ensures EntryName(dir + stem + slashes, second, n) == stem + "-" + Middle(second, n)
  {
    BaseIsLastElement(dir, stem, slashes);
    NoDotNoExt(stem);
    NoSlashIsWhole(stem);
    assert stem[..|stem|] == stem;
    assert stem + "-" + Middle(second, n) + [] == stem + "-" + Middle(second, n);
  }

  lemma TemplateParts(dir: string, stem: string, e: string)
    requires (dir == [] || dir[|dir| - 1] == '/') && '/' !in stem && '/' !in e && '.' !in e
    ensures var template := dir + (stem + "." + e); TemplateStem(template) == stem && TemplateExt(template) == "." + e
  {
    var name := stem + "." + e;
    assert dir + name + [] == dir + name;
    BaseIsLastElement(dir, name, []);
    ExtIsFromLastDot(stem, e);
    assert name[..|stem|] == stem;
  }

  // ----- The names the pattern matches -----

  predicate IsNumber(s: string) { s != [] && forall i :: 0 <= i < |s| ==> '0' <= s[i] <= '9' }

  /** Stem, dash, number, extension, or the same with a second dash and number. */
  ghost predicate LooksLikeCapture(template: string, name: string) {
    var stem, ext := TemplateStem(template), TemplateExt(template);
    || (exists a: string :: IsNumber(a) && name == stem + "-" + a + ext)
    || (exists a: string, b: string :: IsNumber(a) && IsNumber(b) && name == stem + "-" + (a + "-" + b) + ext)
  }

  lemma NumbersAreMiddle(a: string, b: string)
    requires IsNumber(a) && IsNumber(b)
    ensures IsMiddle(a) && IsMiddle(a + "-" + b)
  {
    var m := a + "-" + b;
    assert m[|a|] == '-' && m[..|a|] == a && m[|a| + 1..] == b;
  }

  lemma LooksLikeIsOwned(template: string, name: string)
    requires LooksLikeCapture(template, name)
    ensures IsOwned(template, name)
  {
    var stem, ext := TemplateStem(template), TemplateExt(template);
    if a: string :| IsNumber(a) && name == stem + "-" + a + ext {
      NumbersAreMiddle(a, a);
      Parts(stem, a, ext);
    } else {
      var a: string, b: string :| IsNumber(a) && IsNumber(b) && name == stem + "-" + (a + "-" + b) + ext;
      NumbersAreMiddle(a, b);
      Parts(stem, a + "-" + b, ext);
    }
  }

  lemma OwnedLooksLike(template: string, name: string)
    requires IsOwned(template, name)
    ensures LooksLikeCapture(template, name)
  {
    var stem, ext := TemplateStem(template), TemplateExt(template);
    var m := MiddleOf(template, name);
    OwnedParts(template, name);
    if !IsNumber(m) {
      var a, b := MiddleNumbers(m);
    }
  }

  lemma OwnedParts(template: string, name: string)
    requires IsOwned(template, name)
    ensures name == TemplateStem(template) + "-" + MiddleOf(template, name) + TemplateExt(template)
  {
    ThreeParts(name, |TemplateStem(template)| + 1, |name| - |TemplateExt(template)|);
  }

  lemma ThreeParts(s: string, i: nat, j: nat)
    requires i <= j <= |s|
    ensures s == s[..i] + s[i..j] + s[j..]
  {
  }

  lemma MiddleNumbers(m: string) returns (a: string, b: string)
    requires IsMiddle(m) && !IsNumber(m)
    ensures IsNumber(a) && IsNumber(b) && m == a + "-" + b
  {
    var i :| 0 < i < |m| - 1 && m[i] == '-' && AllDigits(m[..i]) && AllDigits(m[i + 1..]);
    a, b := m[..i], m[i + 1..];
  }

  /** Retention takes a name as its own if and only if it is the stem, a dash, a number or two
      numbers with a dash between them, and the extension. */
  lemma OwnedIff(template: string, name: string)
    ensures IsOwned(template, name) <==> LooksLikeCapture(template, name)
  {
    if IsOwned(template, name) {
      OwnedLooksLike(template, name);
    }
    if LooksLikeCapture(template, name) {
      LooksLikeIsOwned(template, name);
    }
  }

  // ----- Owned but never created -----

  /** A decimal number as it is formatted: no leading zero. */
  predicate Canonical(s: string) {
    s != [] && AllDigits(s) && (|s| > 1 ==> s[0] != '0')
  }

  function Value(s: string): nat
    requires AllDigits(s)
  {
    if s == [] then 0 else 10 * Value(s[..|s| - 1]) + (s[|s| - 1] as nat - '0' as nat)
  }

  lemma {:induction false} ValueIsPositive(s: string)
    requires Canonical(s) && |s| > 1
    ensures Value(s) >= 10
  {
    var front := s[..|s| - 1];
    if |front| > 1 {
      ValueIsPositive(front);
    } else {
      assert front[..0] == [] && Value([]) == 0;
      assert Value(front) == front[0] as nat - '0' as nat;
    }
  }

  lemma {:induction false} DecimalOfValue(s: string)
    requires Canonical(s)
    ensures Decimal(Value(s)) == s
  {
    var front, last := s[..|s| - 1], s[|s| - 1] as nat - '0' as nat;
    if |s| == 1 {
      assert front == [] && Value(s) == last;
    } else {
      ValueIsPositive(s);
      DecimalOfValue(front);
      assert Value(s) / 10 == Value(front) && Value(s) % 10 == last;
      assert s == front + [Digit(last)];
    }
  }

  lemma {:induction false} DecimalIsCanonical(n: nat)
    ensures Canonical(Decimal(n)) && (n > 0 ==> Decimal(n)[0] != '0')
  {
    if n >= 10 {
      DecimalIsCanonical(n / 10);
      assert Decimal(n)[0] == Decimal(n / 10)[0];
    }
  }

  /** What a run puts between stem and extension: one formatted number, or two of which the
      second is 1 to 999. */
  ghost predicate IsRunMiddle(m: string) {
    || Canonical(m)
    || exists i :: && 0 < i < |m| - 1 && m[i] == '-' && Canonical(m[..i]) && Canonical(m[i + 1..])
                   && 1 <= Value(m[i + 1..]) <= MAX_SUFFIX
  }

  lemma RunMiddleIsMade(m: string) returns (second: nat, n: nat)
    requires IsRunMiddle(m)
    ensures n <= MAX_SUFFIX && Middle(second, n) == m
  {
    if Canonical(m) {
      DecimalOfValue(m);
      second, n := Value(m), 0;
    } else {
      var i :| && 0 < i < |m| - 1 && m[i] == '-' && Canonical(m[..i]) && Canonical(m[i + 1..])
               && 1 <= Value(m[i + 1..]) <= MAX_SUFFIX;
      second, n := Value(m[..i]), Value(m[i + 1..]);
      SuffixedIsMade(m, i);
    }
  }

  lemma SuffixedIsMade(m: string, i: nat)
    requires 0 < i < |m| - 1 && m[i] == '-' && Canonical(m[..i]) && Canonical(m[i + 1..]) && Value(m[i + 1..]) > 0
    ensures Middle(Value(m[..i]), Value(m[i + 1..])) == m
  {
    DecimalOfValue(m[..i]);
    DecimalOfValue(m[i + 1..]);
    Rejoin(m, i);
  }

  lemma Rejoin(m: string, i: nat)
    requires i < |m| && m[i] == '-'
    ensures m == m[..i] + ("-" + m[i + 1..])
  {
  }

  lemma {:induction false} ValueOfDecimal(n: nat)
    ensures Value(Decimal(n)) == n
  {
    if n < 10 {
      assert Decimal(n)[..0] == [] && Value([]) == 0;
    } else {
      ValueOfDecimal(n / 10);
      assert Decimal(n)[..|Decimal(n)| - 1] == Decimal(n / 10);
    }
  }

  lemma MadeIsRunMiddle(second: nat, n: nat)
    requires n <= MAX_SUFFIX
    ensures IsRunMiddle(Middle(second, n))
  {
    var m := Middle(second, n);
    DecimalIsCanonical(second);
    if n == 0 {
      assert m == Decimal(second);
    } else {
      DecimalIsCanonical(n);
      ValueOfDecimal(n);
      var i := |Decimal(second)|;
      assert m[i] == '-' && m[..i] == Decimal(second) && m[i + 1..] == Decimal(n);
    }
  }

  lemma RunMiddleIsCreated(template: string, name: string) returns (second: nat, n: nat)
    requires IsOwned(template, name) && Base(template) != "/" && IsRunMiddle(MiddleOf(template, name))
    ensures n <= MAX_SUFFIX && name == EntryName(template, second, n)
  {
    var stem, ext := TemplateStem(template), TemplateExt(template);
    BaseSlash(template);
    assert '/' !in stem;
    NoSlashIsWhole(stem);
    OwnedParts(template, name);
    second, n := RunMiddleIsMade(MiddleOf(template, name));
  }

  lemma CreatedHasRunMiddle(template: string, name: string, second: nat, n: nat)
    requires IsOwned(template, name) && n <= MAX_SUFFIX && name == EntryName(template, second, n)
    ensures Base(template) != "/" && IsRunMiddle(MiddleOf(template, name))
  {
    CreatedIsOwned(template, second, n);
    BaseSlash(template);
    assert '/' !in TemplateStem(template);
    NoSlashIsWhole(TemplateStem(template));
    Parts(TemplateStem(template), Middle(second, n), TemplateExt(template));
    MadeIsRunMiddle(second, n);
  }

  /** Of the names the pattern matches, a run can create exactly those whose numbers are
      written without leading zeros and whose suffix, if any, is 1 to 999. */
  lemma OwnedIsCreatable(template: string, name: string)
    requires IsOwned(template, name)
    ensures (exists second: nat, n: nat :: n <= MAX_SUFFIX && name == EntryName(template, second, n))
            <==> Base(template) != "/" && IsRunMiddle(MiddleOf(template, name))
  {
    if Base(template) != "/" && IsRunMiddle(MiddleOf(template, name)) {
      var second, n := RunMiddleIsCreated(template, name);
    }
    forall second: nat, n: nat | n <= MAX_SUFFIX && name == EntryName(template, second, n)
      ensures Base(template) != "/" && IsRunMiddle(MiddleOf(template, name))
    {
      CreatedHasRunMiddle(template, name, second, n);
    }
  }

  ghost predicate NeverCreated(template: string, name: string) {
    !exists second: nat, n: nat :: n <= MAX_SUFFIX && name == EntryName(template, second, n)
  }

  lemma LeadingZero()
    ensures IsMiddle("07") && !IsRunMiddle("07")
  {
  }

  lemma LeadingZeroIsNeverCreated(template: string, name: string)
    requires Base(template) != "/" && name == TemplateStem(template) + "-" + "07" + TemplateExt(template)
    ensures IsOwned(template, name) && NeverCreated(template, name)
  {
    Parts(TemplateStem(template), "07", TemplateExt(template));
    LeadingZero();
    OwnedIsCreatable(template, name);
    assert MiddleOf(template, name) == "07";
  }

  lemma SlashStemIsNoEntry(template: string, name: string)
    requires Base(template) == "/" && IsOwned(template, name)
    ensures '/' in name
  {
    var stem := TemplateStem(template);
    assert stem == "/";
    assert name[0] == name[..|stem| + 1][0] == '/';
  }

  /** The pattern is wider than the names a run gives: it takes in a possible directory entry
      whose number has a leading zero, which no run creates. The one exception is a template of
      slashes only, whose pattern takes in no possible entry at all. */
  lemma OwnedButNeverCreated(template: string)
    ensures Base(template) != "/" ==>
              var name := TemplateStem(template) + "-" + "07" + TemplateExt(template);
              '/' !in name && IsOwned(template, name) && NeverCreated(template, name)
    ensures Base(template) == "/" ==> forall name :: IsOwned(template, name) ==> '/' in name
  {
    if Base(template) == "/" {
      forall name | IsOwned(template, name) ensures '/' in name {
        SlashStemIsNoEntry(template, name);
      }
    } else {
      BaseSlash(template);
      LeadingZeroIsNeverCreated(template, TemplateStem(template) + "-" + "07" + TemplateExt(template));
    }
  }
}
