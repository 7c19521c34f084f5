/**
 The pure logic of src/components/MessageSection.tsx: column detection by
 normalised header key, template resolution for one row, phone number
 normalisation, construction of the `/send` payload, and the condition that
 ends progress polling.
 */
module Messages {
  import opened Results
  import opened Text
  import opened Lists
  import opened Cells
  import opened JobManager
  import opened Api

  /** The base letter that NFD decomposition followed by removal of the
      combining marks U+0300..U+036F leaves of a lower-case Latin-1 letter. */
  function StripDiacritic(c: char): char {
    if '\U{E0}' <= c <= '\U{E5}' then 'a'
    else if c == '\U{E7}' then 'c'
    else if '\U{E8}' <= c <= '\U{EB}' then 'e'
    else if '\U{EC}' <= c <= '\U{EF}' then 'i'
    else if c == '\U{F1}' then 'n'
    else if '\U{F2}' <= c <= '\U{F6}' then 'o'
    else if '\U{F9}' <= c <= '\U{FC}' then 'u'
    else if c == '\U{FD}' || c == '\U{FF}' then 'y'
    else c
  }

  /** Accents removed letter by letter: unaccented letters, digits and spaces
      stay, and a character that changes becomes a plain `a`..`z`. */
  function StripDiacritics(s: string): (r: string)
    ensures |r| == |s|
    ensures forall i :: 0 <= i < |s| ==> r[i] == StripDiacritic(s[i])
    ensures forall i :: 0 <= i < |s| && (IsKeyChar(s[i]) || s[i] == ' ') ==> r[i] == s[i]
    ensures forall i :: 0 <= i < |s| && r[i] != s[i] ==> 'a' <= r[i] <= 'z'
  {
    seq(|s|, i requires 0 <= i < |s| => StripDiacritic(s[i]))
  }

  predicate IsKeyChar(c: char) {
    'a' <= c <= 'z' || '0' <= c <= '9'
  }

  /** Lower-cased with accents removed. */
  function Fold(s: string): (r: string)
    ensures |r| == |s|
    ensures forall i :: 0 <= i < |s| ==> r[i] == StripDiacritic(LowerChar(s[i]))
  {
    StripDiacritics(Lower(s))
  }

  /** The letters and digits of `s`, in order. */
  function KeyChars(s: string): (r: string)
    ensures |r| <= |s|
    ensures forall i :: 0 <= i < |r| ==> IsKeyChar(r[i])
  {
    if s == [] then [] else (if IsKeyChar(s[0]) then [s[0]] else []) + KeyChars(s[1..])
  }

  lemma {:induction false} KeyCharsAppend(a: string, b: string)
    ensures KeyChars(a + b) == KeyChars(a) + KeyChars(b)
  {
    if a != [] {
      assert (a + b)[0] == a[0];
      assert (a + b)[1..] == a[1..] + b;
      KeyCharsAppend(a[1..], b);
    } else {
      assert a + b == b;
    }
  }

  lemma {:induction false} KeyCharsNone(a: string)
    requires forall i :: 0 <= i < |a| ==> !IsKeyChar(a[i])
    ensures KeyChars(a) == []
  {
    if a != [] {
      KeyCharsNone(a[1..]);
    }
  }

  /** White space is neither folded nor a key character. */
  lemma SpaceFoldsToItself(c: char)
    requires IsSpace(c)
    ensures StripDiacritic(LowerChar(c)) == c && !IsKeyChar(c)
  {
  }

  /** Skip a run of characters outside `[a-z0-9]`. */
  function SkipOthers(s: string): (r: string)
    ensures |r| <= |s| && r == s[|s| - |r|..]
    ensures |r| > 0 ==> IsKeyChar(r[0])
    ensures KeyChars(r) == KeyChars(s)
  {
    if |s| > 0 && !IsKeyChar(s[0]) then SkipOthers(s[1..]) else s
  }

  /** Only `[a-z0-9]` and spaces, and never two spaces in a row. */
  predicate KeyShape(k: string) {
    && (forall i :: 0 <= i < |k| ==> IsKeyChar(k[i]) || k[i] == ' ')
    && (forall i :: 0 <= i < |k| - 1 ==> k[i] != ' ' || k[i + 1] != ' ')
  }

  lemma KeyShapeSlice(k: string, lo: nat, hi: nat)
    requires KeyShape(k) && lo <= hi <= |k|
    ensures KeyShape(k[lo..hi])
  {
    var w := k[lo..hi];
    assert forall i :: 0 <= i < |w| ==> w[i] == k[lo + i];
  }

  lemma KeyShapeCons(c: char, rest: string)
    requires KeyShape(rest) && (IsKeyChar(c) || c == ' ')
    requires c == ' ' && |rest| > 0 ==> rest[0] != ' '
    ensures KeyShape([c] + rest)
  {
    var k := [c] + rest;
    assert forall i :: 1 <= i < |k| ==> k[i] == rest[i - 1];
  }

  /** `.replace(/[^a-z0-9]+/g, ' ')`: every maximal run of other characters
      becomes one space, so no two spaces are adjacent, and the letters and
      digits are kept in order. */
  function CollapseOthers(s: string): (r: string)
    ensures KeyShape(r)
    ensures KeyChars(r) == KeyChars(s)
    ensures |s| > 0 <==> |r| > 0
    ensures |s| > 0 && IsKeyChar(s[0]) ==> r[0] == s[0]
    decreases |s|
  {
    if s == [] then []
    else if IsKeyChar(s[0]) then
      var rest := CollapseOthers(s[1..]);
      KeyShapeCons(s[0], rest);
      assert ([s[0]] + rest)[1..] == rest;
      [s[0]] + rest
    else
      var rest := CollapseOthers(SkipOthers(s[1..]));
      KeyShapeCons(' ', rest);
      assert ([' '] + rest)[1..] == rest;
      [' '] + rest
  }

  /** A string already in key shape has no run to collapse. */
  lemma {:induction false} CollapseOthersFixedPoint(k: string)
    requires KeyShape(k)
    ensures CollapseOthers(k) == k
    decreases |k|
  {
    if k != [] {
      var t := k[1..];
      KeyShapeSlice(k, 1, |k|);
      CollapseOthersFixedPoint(t);
      if !IsKeyChar(k[0]) {
        assert SkipOthers(t) == t by {
          assert |t| > 0 ==> IsKeyChar(t[0]);
        }
      }
      assert [k[0]] + t == k;
    }
  }

  /** A run of other characters is skipped up to the next letter or digit. */
  lemma {:induction false} SkipOthersRun(x: string, y: string)
    requires forall i :: 0 <= i < |x| ==> !IsKeyChar(x[i])
    requires |y| > 0 ==> IsKeyChar(y[0])
    ensures SkipOthers(x + y) == y
    decreases |x|
  {
    if x == [] {
      assert x + y == y;
    } else {
      assert (x + y)[1..] == x[1..] + y;
      SkipOthersRun(x[1..], y);
    }
  }

  /** Skipping stops inside `x` when `x` ends with a letter or digit. */
  lemma {:induction false} SkipOthersStopsEarly(x: string, y: string)
    requires |x| > 0 && IsKeyChar(x[|x| - 1])
    ensures SkipOthers(x + y) == SkipOthers(x) + y
    ensures |SkipOthers(x)| > 0 && IsKeyChar(SkipOthers(x)[|SkipOthers(x)| - 1])
    decreases |x|
  {
    if !IsKeyChar(x[0]) {
      TailOfAppend(x, y);
      SkipOthersStopsEarly(x[1..], y);
    }
  }

  /** A separator of other characters between two words becomes exactly one
      space, and each side is collapsed on its own: `a-b` gives `a b`. */
  lemma {:induction false} CollapseOthersSeparator(a: string, sep: string, b: string)
    requires a == [] || IsKeyChar(a[|a| - 1])
    requires |sep| > 0 && forall i :: 0 <= i < |sep| ==> !IsKeyChar(sep[i])
    requires b == [] || IsKeyChar(b[0])
    ensures CollapseOthers(a + sep + b) == CollapseOthers(a) + [' '] + CollapseOthers(b)
    decreases |a|, 1
  {
    if a == [] {
      SeparatorFirst(a, sep, b);
    } else if IsKeyChar(a[0]) {
      SeparatorAfterKeyChar(a, sep, b);
    } else {
      SeparatorAfterOther(a, sep, b);
    }
  }

  lemma SeparatorFirst(a: string, sep: string, b: string)
    requires a == []
    requires |sep| > 0 && forall i :: 0 <= i < |sep| ==> !IsKeyChar(sep[i])
    requires b == [] || IsKeyChar(b[0])
    ensures CollapseOthers(a + sep + b) == CollapseOthers(a) + [' '] + CollapseOthers(b)
  {
    var x, rest := sep + b, sep[1..];
    assert a + sep + b == x;
    TailOfAppend(sep, b);
    assert forall i :: 0 <= i < |rest| ==> !IsKeyChar(rest[i]) by {
      assert forall i :: 0 <= i < |rest| ==> rest[i] == sep[i + 1];
    }
    SkipOthersRun(rest, b);
    assert !IsKeyChar(x[0]);
    calc {
      CollapseOthers(a + sep + b);
      CollapseOthers(x);
      [' '] + CollapseOthers(SkipOthers(x[1..]));
      [' '] + CollapseOthers(b);
      { NilAppend([' '] + CollapseOthers(b)); SeqAssoc([], [' '], CollapseOthers(b)); }
      [] + [' '] + CollapseOthers(b);
    }
  }

  lemma NilAppend(u: string)
    ensures [] + u == u
  {
  }

  lemma TailOfAppend(a: string, x: string)
    requires |a| > 0
    ensures (a + x)[1..] == a[1..] + x
  {
  }

  lemma {:induction false} SeparatorAfterKeyChar(a: string, sep: string, b: string)
    requires |a| > 0 && IsKeyChar(a[0]) && IsKeyChar(a[|a| - 1])
    requires |sep| > 0 && forall i :: 0 <= i < |sep| ==> !IsKeyChar(sep[i])
    requires b == [] || IsKeyChar(b[0])
    ensures CollapseOthers(a + sep + b) == CollapseOthers(a) + [' '] + CollapseOthers(b)
    decreases |a|, 0
  {
    var c, t, x := [a[0]], a[1..], sep + b;
    CollapseOthersSeparator(t, sep, b);
    SeqAssoc(a, sep, b);
    SeqAssoc(t, sep, b);
    TailOfAppend(a, x);
    assert CollapseOthers(a + x) == c + CollapseOthers(t + x);
    SeqAssoc(c, CollapseOthers(t) + [' '], CollapseOthers(b));
    SeqAssoc(c, CollapseOthers(t), [' ']);
  }

  lemma {:induction false} SeparatorAfterOther(a: string, sep: string, b: string)
    requires |a| > 0 && !IsKeyChar(a[0]) && IsKeyChar(a[|a| - 1])
    requires |sep| > 0 && forall i :: 0 <= i < |sep| ==> !IsKeyChar(sep[i])
    requires b == [] || IsKeyChar(b[0])
    ensures CollapseOthers(a + sep + b) == CollapseOthers(a) + [' '] + CollapseOthers(b)
    decreases |a|, 0
  {
    var t, x := a[1..], sep + b;
    SkipOthersStopsEarly(t, x);
    var u := SkipOthers(t);
    CollapseOthersSeparator(u, sep, b);
    calc {
      CollapseOthers(a + sep + b);
      { SeqAssoc(a, sep, b); }
      CollapseOthers(a + x);
      { TailOfAppend(a, x); }
      [' '] + CollapseOthers(SkipOthers(t + x));
      [' '] + CollapseOthers(u + x);
      { SeqAssoc(u, sep, b); }
      [' '] + CollapseOthers(u + sep + b);
      [' '] + (CollapseOthers(u) + [' '] + CollapseOthers(b));
      { SeqAssoc([' '], CollapseOthers(u) + [' '], CollapseOthers(b));
        SeqAssoc([' '], CollapseOthers(u), [' ']); }
      [' '] + CollapseOthers(u) + [' '] + CollapseOthers(b);
      CollapseOthers(a) + [' '] + CollapseOthers(b);
    }
  }

  lemma CollapseDashExample()
    ensures CollapseOthers("a-b") == "a b"
  {
    var a, sep, b := "a", "-", "b";
    assert a + sep + b == "a-b";
    CollapseOthersSeparator(a, sep, b);
    CollapseOthersFixedPoint(a);
    CollapseOthersFixedPoint(b);
    assert a + [' '] + b == "a b";
  }

  lemma TrimNoEdgeSpace(s: string)
    requires |s| > 0 ==> !IsSpace(s[0]) && !IsSpace(s[|s| - 1])
    ensures Trim(s) == s
  {
    assert TrimStart(s) == s;
  }

  lemma FoldAppend(a: string, b: string)
    ensures Fold(a + b) == Fold(a) + Fold(b)
  {
    assert forall i :: 0 <= i < |a + b| ==> (a + b)[i] == if i < |a| then a[i] else b[i - |a|];
  }

  /** Letters and digits framed by characters that are neither. */
  lemma KeyCharsAround(a: string, t: string, b: string)
    requires forall i :: 0 <= i < |a| ==> !IsKeyChar(a[i])
    requires forall i :: 0 <= i < |b| ==> !IsKeyChar(b[i])
    ensures KeyChars(a + t + b) == KeyChars(t)
  {
    KeyCharsNone(a);
    KeyCharsNone(b);
    KeyCharsAppend(a + t, b);
    KeyCharsAppend(a, t);
  }

  /** `Trim` cuts `s` into white space, the result, and white space. */
  lemma TrimSplit(s: string) returns (a: string, b: string)
    ensures s == a + Trim(s) + b
    ensures forall i :: 0 <= i < |a| ==> IsSpace(a[i])
    ensures forall i :: 0 <= i < |b| ==> IsSpace(b[i])
  {
    var u, t := TrimStart(s), Trim(s);
    a := LeadingSpace(s);
    b := TrailingSpace(u);
    assert t == TrimEnd(u);
    calc {
      s;
      a + u;
      a + (t + b);
      { SeqAssoc(a, t, b); }
      a + t + b;
    }
  }

  lemma SeqAssoc(a: string, t: string, b: string)
    ensures a + (t + b) == a + t + b
  {
  }

  lemma LeadingSpace(s: string) returns (a: string)
    ensures s == a + TrimStart(s)
    ensures forall i :: 0 <= i < |a| ==> IsSpace(a[i])
  {
    a := s[..|s| - |TrimStart(s)|];
  }

  lemma TrailingSpace(u: string) returns (b: string)
    ensures u == TrimEnd(u) + b
    ensures forall i :: 0 <= i < |b| ==> IsSpace(b[i])
  {
    var t := TrimEnd(u);
    b := u[|t|..];
    forall i | 0 <= i < |b| ensures IsSpace(b[i]) {
      assert b[i] == u[|t| + i];
    }
  }

  /** What `Trim` cuts away is white space, so cutting keeps the letters and
      digits. */
  lemma TrimKeepsKeyChars(s: string)
    ensures KeyChars(Trim(s)) == KeyChars(s)
  {
    var a, b := TrimSplit(s);
    forall i | 0 <= i < |a| ensures !IsKeyChar(a[i]) {
      SpaceFoldsToItself(a[i]);
    }
    forall i | 0 <= i < |b| ensures !IsKeyChar(b[i]) {
      SpaceFoldsToItself(b[i]);
    }
    KeyCharsAround(a, Trim(s), b);
  }

  /** The same holds after folding, as white space folds to itself. */
  lemma FoldTrimKeepsKeyChars(s: string)
    ensures KeyChars(Fold(Trim(s))) == KeyChars(Fold(s))
  {
    var a, b := TrimSplit(s);
    FoldSpaceAround(a, Trim(s), b);
  }

  lemma FoldSpaceAround(a: string, t: string, b: string)
    requires forall i :: 0 <= i < |a| ==> IsSpace(a[i])
    requires forall i :: 0 <= i < |b| ==> IsSpace(b[i])
    ensures KeyChars(Fold(a + t + b)) == KeyChars(Fold(t))
  {
    FoldAppend(a + t, b);
    FoldAppend(a, t);
    var fa, fb := Fold(a), Fold(b);
    forall i | 0 <= i < |fa| ensures !IsKeyChar(fa[i]) {
      SpaceFoldsToItself(a[i]);
    }
    forall i | 0 <= i < |fb| ensures !IsKeyChar(fb[i]) {
      SpaceFoldsToItself(b[i]);
    }
    KeyCharsAround(fa, Fold(t), fb);
  }

  /** Trimming keeps the shape of a key and leaves no space at either end. */
  lemma TrimKeepsKeyShape(c: string)
    requires KeyShape(c)
    ensures KeyShape(Trim(c))
    ensures |Trim(c)| > 0 ==> Trim(c)[0] != ' ' && Trim(c)[|Trim(c)| - 1] != ' '
  {
    var t := TrimStart(c);
    var k := TrimEnd(t);
    KeyShapeSlice(c, |c| - |t|, |c|);
    KeyShapeSlice(t, 0, |k|);
    assert |k| > 0 ==> k[0] == t[0];
  }

  /** `normalizeKey`: trimmed, lower-cased, accents removed, other characters
      collapsed to single spaces, trimmed again. The key consists of `[a-z0-9]`
      words separated by single spaces. */
  function NormalizeKey(s: string): (k: string)
    ensures KeyShape(k)
    ensures |k| > 0 ==> k[0] != ' ' && k[|k| - 1] != ' '
  {
    var c := CollapseOthers(StripDiacritics(Lower(Trim(s))));
    TrimKeepsKeyShape(c);
    Trim(c)
  }

  /** Normalising keeps exactly the letters and digits of the folded header,
      in order: only separators are rewritten. */
  lemma NormalizeKeyKeepsKeyChars(s: string)
    ensures KeyChars(NormalizeKey(s)) == KeyChars(Fold(s))
  {
    FoldTrimKeepsKeyChars(s);
    var c := CollapseOthers(Fold(Trim(s)));
    TrimKeepsKeyChars(c);
  }

  /** A key is its own normal form: words of `[a-z0-9]` separated by single
      spaces come back unchanged. */
  lemma NormalizeKeyFixedPoint(k: string)
    requires KeyShape(k)
    requires |k| > 0 ==> k[0] != ' ' && k[|k| - 1] != ' '
    ensures NormalizeKey(k) == k
  {
    TrimNoEdgeSpace(k);
    assert Fold(k) == k;
    CollapseOthersFixedPoint(k);
  }

  /** Normalising twice is normalising once. */
  lemma NormalizeKeyIdempotent(s: string)
    ensures NormalizeKey(NormalizeKey(s)) == NormalizeKey(s)
  {
    NormalizeKeyFixedPoint(NormalizeKey(s));
  }

  /** A header made only of letters that fold to `[a-z0-9]` normalises to its
      folded self. */
  lemma NormalizeKeyOfWord(s: string)
    requires forall i :: 0 <= i < |s| ==> IsKeyChar(Fold(s)[i])
    ensures NormalizeKey(s) == Fold(s)
  {
    var f := Fold(s);
    assert Trim(s) == s by {
      if |s| > 0 {
        if IsSpace(s[0]) { SpaceFoldsToItself(s[0]); }
        if IsSpace(s[|s| - 1]) { SpaceFoldsToItself(s[|s| - 1]); }
      }
      TrimNoEdgeSpace(s);
    }
    assert Trim(CollapseOthers(f)) == f by {
      WordIsKey(f);
    }
  }

  lemma WordIsKey(f: string)
    requires forall i :: 0 <= i < |f| ==> IsKeyChar(f[i])
    ensures Trim(CollapseOthers(f)) == f
  {
    assert KeyShape(f);
    CollapseOthersFixedPoint(f);
    KeyTrimmed(f);
  }

  lemma KeyTrimmed(f: string)
    requires forall i :: 0 <= i < |f| ==> IsKeyChar(f[i])
    ensures Trim(f) == f
  {
    if |f| > 0 {
      assert IsKeyChar(f[0]) && IsKeyChar(f[|f| - 1]);
    }
    TrimNoEdgeSpace(f);
  }

  lemma NombreKey()
    ensures NormalizeKey("Nombre") == "nombre"
  {
    assert Fold("Nombre") == "nombre";
    NormalizeKeyOfWord("Nombre");
  }

  /** The accent of "Teléfono" is removed. */
  lemma TelefonoKey()
    ensures NormalizeKey("Tel\U{E9}fono") == "telefono"
  {
    assert Fold("Tel\U{E9}fono") == "telefono";
    NormalizeKeyOfWord("Tel\U{E9}fono");
  }

  lemma CelularKey()
    ensures NormalizeKey("Celular") == "celular"
  {
    assert Fold("Celular") == "celular";
    NormalizeKeyOfWord("Celular");
  }

  lemma NombreNotTelefono()
    ensures !IsTelefonoKey("nombre")
  {
    MissingFirstNotContains("nombre", "cel");
    MissingFirstNotContains("nombre", "phone");
  }

  lemma CelularNotNombre()
    ensures !IsNombreKey("celular")
  {
    assert "celular"[1] != "cliente"[1];
    ShortNotContains("celular"[1..], "cliente");
  }

  /** "Teléfono" is recognised as the phone column after "Nombre". */
  lemma TelefonoIndexExample()
    ensures TelefonoIndex(["Nombre", "Tel\U{E9}fono"]) == 1
  {
    NombreKey();
    TelefonoKey();
    NombreNotTelefono();
    SecondTelefono("Nombre", "Tel\U{E9}fono");
  }

  lemma SecondTelefono(a: string, b: string)
    requires !IsTelefonoKey(NormalizeKey(a)) && IsTelefonoKey(NormalizeKey(b))
    ensures TelefonoIndex([a, b]) == 1
  {
    var h := [a, b];
    var r := TelefonoIndex(h);
    assert h[0] == a && h[1] == b;
    assert r != -1 by {
      assert IsTelefonoKey(NormalizeKey(h[1]));
    }
    assert r != 0;
  }

  /** "Nombre" is recognised as the name column after "Celular". */
  lemma NombreIndexExample()
    ensures NombreIndex(["Celular", "Nombre"]) == 1
  {
    CelularKey();
    NombreKey();
    CelularNotNombre();
    SecondNombre("Celular", "Nombre");
  }

  lemma SecondNombre(a: string, b: string)
    requires !IsNombreKey(NormalizeKey(a)) && IsNombreKey(NormalizeKey(b))
    ensures NombreIndex([a, b]) == 1
  {
    var h := [a, b];
    var r := NombreIndex(h);
    assert h[0] == a && h[1] == b;
    assert r != -1 by {
      assert IsNombreKey(NormalizeKey(h[1]));
    }
    assert r != 0;
  }

  function HeaderKeys(headers: seq<string>): (keys: seq<string>)
    ensures |keys| == |headers|
    ensures forall i :: 0 <= i < |headers| ==> keys[i] == NormalizeKey(headers[i])
  {
    seq(|headers|, i requires 0 <= i < |headers| => NormalizeKey(headers[i]))
  }

  predicate IsNombreKey(k: string) {
    k == "nombre" || StartsWith(k, "nombre") || Contains(k, "cliente")
  }

  predicate IsTelefonoKey(k: string) {
    k == "telefono" || Contains(k, "cel") || Contains(k, "phone")
  }

  /** `nombreIdx`: the first header naming the contact's name column, or -1. */
  function NombreIndex(headers: seq<string>): (r: int)
    ensures -1 <= r < |headers|
    ensures r == -1 <==> forall j :: 0 <= j < |headers| ==> !IsNombreKey(NormalizeKey(headers[j]))
    ensures r >= 0 ==>
      IsNombreKey(NormalizeKey(headers[r])) && forall j :: 0 <= j < r ==> !IsNombreKey(NormalizeKey(headers[j]))
  {
    FindIndex(HeaderKeys(headers), IsNombreKey)
  }

  /** `telefonoIdx`: the first header whose key is `telefono` or mentions `cel`
      or `phone`, or -1. */
  function TelefonoIndex(headers: seq<string>): (r: int)
    ensures -1 <= r < |headers|
    ensures r == -1 <==> forall j :: 0 <= j < |headers| ==> !IsTelefonoKey(NormalizeKey(headers[j]))
    ensures r >= 0 ==>
      IsTelefonoKey(NormalizeKey(headers[r])) && forall j :: 0 <= j < r ==> !IsTelefonoKey(NormalizeKey(headers[j]))
  {
    FindIndex(HeaderKeys(headers), IsTelefonoKey)
  }

  /** `{{h}}` */
  function Token(h: string): (t: string)
    ensures |t| >= 4
  {
    "{{" + h + "}}"
  }

  const NombreToken: string := "{{nombre}}"

  const TelefonoToken: string := "{{telefono}}"

  /** `if (out.includes(token)) out = out.split(token).join(value)` */
  function ReplaceIfPresent(out: string, token: string, value: string): string
    requires |token| > 0
  {
    if Contains(out, token) then ReplaceAll(out, token, value) else out
  }

  /** The `includes` guard changes nothing: the replacement alone has the same effect. */
  lemma ReplaceIfPresentIsReplaceAll(out: string, token: string, value: string)
    requires |token| > 0
    ensures ReplaceIfPresent(out, token, value) == ReplaceAll(out, token, value)
  {
    if !Contains(out, token) {
      ReplaceAllAbsent(out, token, value);
    }
  }

  /** `headers.forEach((h, idx) => ...)` from header `idx` on. A text holding
      none of the remaining headers' tokens comes back unchanged. */
  function SubstituteHeaders(out: string, headers: seq<string>, row: seq<Cell>, idx: nat): (r: string)
    ensures (forall j :: idx <= j < |headers| ==> !Contains(out, Token(headers[j]))) ==> r == out
    decreases |headers| - idx
  {
    if idx >= |headers| then out
    else SubstituteHeaders(ReplaceIfPresent(out, Token(headers[idx]), Show(At(row, idx))), headers, row, idx + 1)
  }

  /** The detected name and phone columns (`nombreIdx`, `telefonoIdx`), computed
      once per header list and shared by every row. */
  datatype Columns = Columns(nombre: int, telefono: int)

  function DetectColumns(headers: seq<string>): Columns {
    Columns(NombreIndex(headers), TelefonoIndex(headers))
  }

  /** `resolveForRow`: every `{{header}}` token becomes the row's value in that
      column, header by header, when there are headers and the row is not empty;
      then `{{nombre}}` and `{{telefono}}` become the values of the detected
      columns, or nothing when no such column exists. */
  function ResolveForRow(message: string, headers: seq<string>, cols: Columns, row: seq<Cell>): (r: string)
    ensures message == "" ==> r == ""
  {
    if message == "" then ""
    else
      var out := if |headers| > 0 && |row| > 0 then SubstituteHeaders(message, headers, row, 0) else message;
      var out' := ReplaceIfPresent(out, NombreToken, if cols.nombre >= 0 then Show(At(row, cols.nombre)) else "");
      ReplaceIfPresent(out', TelefonoToken, if cols.telefono >= 0 then Show(At(row, cols.telefono)) else "")
  }

  /** Reference definition of the header pass: every header's token replaced
      everywhere by the row's value, header by header, with no `includes` guard. */
  function ReplaceEachHeader(out: string, headers: seq<string>, row: seq<Cell>, idx: nat): string
    decreases |headers| - idx
  {
    if idx >= |headers| then out
    else ReplaceEachHeader(ReplaceAll(out, Token(headers[idx]), Show(At(row, idx))), headers, row, idx + 1)
  }

  /** The guarded header pass is the plain sequence of replacements. */
  lemma {:induction false} SubstituteHeadersIsReplaceEach(out: string, headers: seq<string>, row: seq<Cell>, idx: nat)
    ensures SubstituteHeaders(out, headers, row, idx) == ReplaceEachHeader(out, headers, row, idx)
    decreases |headers| - idx
  {
    if idx < |headers| {
      var t := Token(headers[idx]);
      var v := Show(At(row, idx));
      ReplaceIfPresentIsReplaceAll(out, t, v);
      SubstituteHeadersIsReplaceEach(ReplaceAll(out, t, v), headers, row, idx + 1);
    }
  }

  /** The value a built-in token stands for: the detected column's cell, or
      nothing when no column was detected. */
  function ColumnValue(row: seq<Cell>, col: int): string {
    if col >= 0 then Show(At(row, col)) else ""
  }

  /** `resolveForRow` on a non-empty template: the header pass (only with
      headers and a non-empty row), then every `{{nombre}}`, then every
      `{{telefono}}`, each replaced everywhere. */
  lemma ResolveForRowSteps(message: string, headers: seq<string>, cols: Columns, row: seq<Cell>)
    requires message != ""
    ensures ResolveForRow(message, headers, cols, row) ==
      var out := if |headers| > 0 && |row| > 0 then ReplaceEachHeader(message, headers, row, 0) else message;
      ReplaceAll(ReplaceAll(out, NombreToken, ColumnValue(row, cols.nombre)), TelefonoToken, ColumnValue(row, cols.telefono))
  {
    SubstituteHeadersIsReplaceEach(message, headers, row, 0);
    var out := if |headers| > 0 && |row| > 0 then ReplaceEachHeader(message, headers, row, 0) else message;
    ReplaceIfPresentIsReplaceAll(out, NombreToken, ColumnValue(row, cols.nombre));
    ReplaceIfPresentIsReplaceAll(ReplaceAll(out, NombreToken, ColumnValue(row, cols.nombre)), TelefonoToken, ColumnValue(row, cols.telefono));
  }

  /** A template containing none of the tokens is sent as written. */
  lemma ResolveWithoutTokens(message: string, headers: seq<string>, cols: Columns, row: seq<Cell>)
    requires forall j :: 0 <= j < |headers| ==> !Contains(message, Token(headers[j]))
    requires !Contains(message, NombreToken) && !Contains(message, TelefonoToken)
    ensures ResolveForRow(message, headers, cols, row) == message
  {
  }

  /** Without headers no column is detected, so the two built-in tokens are
      erased wherever they occur and nothing else changes. */
  lemma ResolveWithoutHeaders(message: string, row: seq<Cell>)
    requires message != ""
    ensures ResolveForRow(message, [], DetectColumns([]), row)
         == ReplaceAll(ReplaceAll(message, NombreToken, ""), TelefonoToken, "")
  {
    ReplaceIfPresentIsReplaceAll(message, NombreToken, "");
    ReplaceIfPresentIsReplaceAll(ReplaceAll(message, NombreToken, ""), TelefonoToken, "");
  }

  /** The first three characters of `d`, as the prefix tests see them. */
  lemma PrefixSlices(d: string)
    ensures |d| >= 2 ==> d[..2] == [d[0], d[1]] && d[1..][..1] == [d[1]] && d[..1] == [d[0]]
    ensures |d| >= 3 ==> d[..3] == [d[0], d[1], d[2]] && d[2..][..1] == [d[2]]
  {
  }

  /** One leading `00`, then one leading `0`, removed from a digit string:
      as many leading zeros go as there are, up to three, and nothing else. */
  function StripTrunkPrefix(d: string): (r: string)
    ensures |r| <= |d| && r == d[|d| - |r|..]
    ensures AllDigits(d) ==> AllDigits(r)
    ensures |d| - |r| <= 3
    ensures forall k :: 0 <= k < |d| - |r| ==> d[k] == '0'
    ensures !StartsWith(d, "0") <==> r == d
    ensures |d| - |r| == if StartsWith(d, "000") then 3 else if StartsWith(d, "00") then 2
      else if StartsWith(d, "0") then 1 else 0
  {
    PrefixSlices(d);
    var d1 := if StartsWith(d, "00") then d[2..] else d;
    if StartsWith(d1, "0") then d1[1..] else d1
  }

  /** `sanitizePhone`: the digits of the value with a leading `00` and then a
      leading `0` removed; kept as is when they start with the Peruvian country
      code 51, prefixed with 51 when nine digits remain, kept as is otherwise. */
  function SanitizePhone(v: Cell): (r: string)
    ensures AllDigits(r)
    ensures |r| <= |KeepDigits(Show(v))| + 2
  {
    var d := StripTrunkPrefix(KeepDigits(Show(v)));
    if StartsWith(d, "51") then d
    else if |d| == 9 then
      AllDigitsAppend("51", d);
      "51" + d
    else d
  }

  /** A number already carrying the country code is a fixed point, so
      normalising twice is normalising once for such numbers. */
  lemma SanitizeCanonical(s: string)
    requires AllDigits(s) && StartsWith(s, "51")
    ensures SanitizePhone(Str(s)) == s
  {
    assert KeepDigits(s) == s;
    assert !StartsWith(s, "00") && !StartsWith(s, "0");
  }

  predicate IsPeruvianMobile(m: string) {
    |m| == 9 && AllDigits(m) && m[0] == '9'
  }

  /** Nine digits that do not start with 51 or 0 are prefixed with 51. */
  lemma SanitizeNineDigits(d: string)
    requires |d| == 9 && AllDigits(d) && !StartsWith(d, "51") && !StartsWith(d, "0")
    ensures SanitizePhone(Str(d)) == "51" + d
  {
    assert KeepDigits(d) == d;
    assert !StartsWith(d, "00");
  }

  /** The usual ways of writing a Peruvian mobile number (nine digits starting
      with 9) all normalise to `51` followed by the nine digits: bare, with the
      trunk `0`, with the country code, with the `00` international prefix, and
      as `+51 ` followed by the number. */
  lemma SanitizePeruvianMobile(m: string)
    requires IsPeruvianMobile(m)
    ensures SanitizePhone(Str(m)) == "51" + m
    ensures SanitizePhone(Str("0" + m)) == "51" + m
    ensures SanitizePhone(Str("00" + m)) == "51" + m
    ensures SanitizePhone(Str("51" + m)) == "51" + m
    ensures SanitizePhone(Str("0051" + m)) == "51" + m
    ensures SanitizePhone(Str("+51 " + m)) == "51" + m
  {
    assert m[..1] == "9";
    SanitizeNineDigits(m);
    SanitizeTrunkZero(m);
    SanitizeDoubleZero(m);
    SanitizeCanonical("51" + m);
    SanitizeInternationalPrefix(m);
    SanitizePlusPrefix(m);
  }

  lemma SanitizeTrunkZero(m: string)
    requires IsPeruvianMobile(m)
    ensures SanitizePhone(Str("0" + m)) == "51" + m
  {
    var d := "0" + m;
    assert AllDigits(d) by {
      AllDigitsAppend("0", m);
    }
    assert StripTrunkPrefix(d) == m by {
      assert d[..2] != "00" by {
        assert d[..2][1] == '9';
      }
      assert d[..1] == "0" && d[1..] == m;
    }
    assert !StartsWith(m, "51") by {
      assert m[0] == '9';
    }
    SanitizeDigits(d, m);
  }

  /** Proof step only: unfolds `SanitizePhone` of a digit string once the
      result of `StripTrunkPrefix` is known, so that the lemmas above need not
      unfold it themselves. */
  lemma SanitizeDigits(d: string, x: string)
    requires AllDigits(d) && StripTrunkPrefix(d) == x
    ensures SanitizePhone(Str(d)) == if StartsWith(x, "51") then x else if |x| == 9 then "51" + x else x
  {
    assert KeepDigits(Show(Str(d))) == d;
  }

  /** A mobile written with the international dialling prefix `00` but without
      the country code is still prefixed with 51. */
  lemma SanitizeDoubleZero(m: string)
    requires IsPeruvianMobile(m)
    ensures SanitizePhone(Str("00" + m)) == "51" + m
  {
    var d := "00" + m;
    assert AllDigits(d) by {
      AllDigitsAppend("00", m);
    }
    assert StripTrunkPrefix(d) == m by {
      assert d[..2] == "00" && d[2..] == m;
      assert m[..1] != "0" by {
        assert m[..1][0] == '9';
      }
    }
    assert !StartsWith(m, "51") by {
      assert m[0] == '9';
    }
    SanitizeDigits(d, m);
  }

  lemma SanitizeInternationalPrefix(m: string)
    requires IsPeruvianMobile(m)
    ensures SanitizePhone(Str("0051" + m)) == "51" + m
  {
    var d := "0051" + m;
    assert KeepDigits(d) == d by {
      AllDigitsAppend("0051", m);
    }
    assert StripTrunkPrefix(d) == "51" + m by {
      assert StartsWith(d, "00") && d[2..] == "51" + m;
      assert !StartsWith("51" + m, "0");
    }
    assert StartsWith("51" + m, "51");
  }

  /** Only the digits of a value matter to the normalisation. */
  lemma SanitizeSameDigits(a: string, b: string)
    requires KeepDigits(a) == KeepDigits(b)
    ensures SanitizePhone(Str(a)) == SanitizePhone(Str(b))
  {
  }

  lemma PlusPrefixDigits(m: string)
    requires AllDigits(m)
    ensures KeepDigits("+51 " + m) == "51" + m
  {
    assert "+51 " + m == ['+'] + ("51" + ([' '] + m));
    KeepDigitsSkip('+', "51" + ([' '] + m));
    KeepDigitsAppend("51", [' '] + m);
    assert AllDigits("51");
    KeepDigitsSkip(' ', m);
  }

  lemma SanitizePlusPrefix(m: string)
    requires IsPeruvianMobile(m)
    ensures SanitizePhone(Str("+51 " + m)) == "51" + m
  {
    PlusPrefixDigits(m);
    AllDigitsAppend("51", m);
    SanitizeSameDigits("+51 " + m, "51" + m);
    SanitizeCanonical("51" + m);
  }

  /** `imageDataUrl ? { dataUrl: imageDataUrl } : null`: an image goes along
      exactly when there is a non-empty data URL, and it is that URL. */
  function ImageOf(imageDataUrl: Option<string>): (r: Option<ImagePayload>)
    ensures r.Some? <==> imageDataUrl.Some? && imageDataUrl.value != ""
    ensures r.Some? ==> r.value.dataUrl == imageDataUrl.value
  {
    match imageDataUrl
    case Some(u) => if u != "" then Some(ImagePayload(u)) else None
    case None => None
  }

  /** What the message section holds when it builds a payload: the header
      row, the columns detected from it, the template, and the image if any. */
  datatype Draft = Draft(headers: seq<string>, columns: Columns, message: string, imageDataUrl: Option<string>)

  function NewDraft(headers: seq<string>, message: string, imageDataUrl: Option<string>): Draft {
    Draft(headers, DetectColumns(headers), message, imageDataUrl)
  }

  /** What one row contributes to the payload: nothing when its phone or its
      resolved text is empty. */
  function UnitFor(d: Draft, row: seq<Cell>): seq<OutMessage> {
    var to := SanitizePhone(At(row, d.columns.telefono));
    if to == "" then []
    else
      var text := ResolveForRow(d.message, d.headers, d.columns, row);
      if text == "" then [] else [OutMessage(to, text, ImageOf(d.imageDataUrl))]
  }

  /** A message worth sending: a phone made of digits, a text, and the image
      attached to every message of the batch. */
  predicate Deliverable(u: OutMessage, imageDataUrl: Option<string>) {
    u.to != "" && AllDigits(u.to) && u.text != "" && u.image == ImageOf(imageDataUrl)
  }

  /** `UnitFor` for a fixed draft. */
  function UnitMaker(d: Draft): seq<Cell> -> seq<OutMessage> {
    row => UnitFor(d, row)
  }

  /** Reference definition: the rows kept, in order, each turned into its unit. */
  function Units(d: Draft, rows: seq<seq<Cell>>): seq<OutMessage> {
    FlatMap(rows, UnitMaker(d))
  }

  /** Extending the prefix of rows by one row adds that row's unit. */
  lemma UnitsPrefix(d: Draft, rows: seq<seq<Cell>>, i: nat)
    requires i < |rows|
    ensures Units(d, rows[..i + 1]) == Units(d, rows[..i]) + UnitFor(d, rows[i])
  {
    assert rows[..i + 1] == rows[..i] + [rows[i]];
    FlatMapAppend(rows[..i], rows[i], UnitMaker(d));
  }

  /** At most one message per row, and every message is deliverable. */
  lemma {:induction false} UnitsDeliverable(d: Draft, rows: seq<seq<Cell>>)
    ensures |Units(d, rows)| <= |rows|
    ensures forall u | u in Units(d, rows) :: Deliverable(u, d.imageDataUrl)
  {
    if rows != [] {
      UnitsDeliverable(d, rows[1..]);
      assert Units(d, rows) == UnitFor(d, rows[0]) + Units(d, rows[1..]);
      assert forall u | u in UnitFor(d, rows[0]) :: Deliverable(u, d.imageDataUrl);
    }
  }

  /** The body of the `for` of `buildPayload` for one row: skip it when the
      normalised phone is empty, skip it when the resolved text is empty,
      otherwise produce its message. */
  method RowUnit(d: Draft, row: seq<Cell>) returns (unit: seq<OutMessage>)
    ensures unit == UnitFor(d, row)
    ensures |unit| <= 1
    ensures forall u | u in unit :: Deliverable(u, d.imageDataUrl)
  {
    var to := SanitizePhone(At(row, d.columns.telefono));
    if to == "" {
      return [];
    }
    var text := ResolveForRow(d.message, d.headers, d.columns, row);
    if text == "" {
      return [];
    }
    unit := [OutMessage(to, text, ImageOf(d.imageDataUrl))];
  }

  /** `buildPayload`: nothing without a phone column; otherwise one message per
      row with a non-empty normalised phone and a non-empty resolved text, in
      row order, each carrying the same image. */
  method BuildPayload(d: Draft, rows: seq<seq<Cell>>) returns (msgs: seq<OutMessage>)
    ensures d.columns.telefono < 0 ==> msgs == []
    ensures d.columns.telefono >= 0 ==> msgs == Units(d, rows)
    ensures |msgs| <= |rows|
    ensures forall u | u in msgs :: Deliverable(u, d.imageDataUrl)
  {
    msgs := [];
    if d.columns.telefono < 0 {
      return;
    }
    var i := 0;
    assert rows[..0] == [];
    while i < |rows|
      invariant 0 <= i <= |rows|
      invariant msgs == Units(d, rows[..i])
    {
      var unit := RowUnit(d, rows[i]);
      UnitsPrefix(d, rows, i);
      msgs := msgs + unit;
      i := i + 1;
    }
    assert rows[..i] == rows;
    UnitsDeliverable(d, rows);
  }

  /** What one progress request yields to the polling loop: a snapshot, or a
      failure (a network error or a non-2xx status). */
  datatype PollReply = Snapshot(progress: ProgressResponse) | RequestFailed

  function PollReplyOf(r: Result<ProgressResponse, HttpError>): PollReply {
    match r
    case Success(p) => Snapshot(p)
    case Failure(_) => RequestFailed
  }

  /** `pollProgress` ends on a failed request or on a snapshot that is neither
      running nor paused; otherwise it waits a second and asks again. */
  predicate StopsPolling(reply: PollReply) {
    reply.RequestFailed? || (!reply.progress.running && !reply.progress.paused)
  }

  /** Against a well-formed store, polling stops exactly for an unknown id or
      for a job that is not paused and whose loop is not inside its `for`: not
      yet started, or returned. A job cancelled while paused keeps `paused` and
      so keeps being polled. */
  lemma PollingStopCondition(m: Manager, id: string)
    requires Valid(m)
    ensures StopsPolling(PollReplyOf(Progress(m, id))) <==>
      || id !in m.jobs
      || (&& !m.tasks[id].phase.PauseWait? && !m.tasks[id].phase.DelaySleep?
          && !m.jobs[id].paused)
  {
    if id in m.jobs {
      RunningMeansLoopActive(m, id);
    }
  }
}
