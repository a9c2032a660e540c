/**
  The upload endpoint of src/app/api/upload/route.ts: how the object key of an
  upload is derived from a random id and the file's (or the caller's) name,
  and the order of the checks an upload passes before it is stored: session,
  form, size limit, empty file, bucket quota.
*/
module Upload {
  import opened Text
  import Utf8
  import Auth
  import MediaTypes
  import R2

  /** MAX_FILE_SIZE: 100 MiB. */
  const MaxFileSize: int := 100 * 1024 * 1024

  // ---------------------------------------------------------------------------
  // sanitizeFilename

  /** The characters a key may keep: `[A-Za-z0-9._-]`. */
  predicate AllowedChar(c: char) {
    ('A' <= c <= 'Z') || ('a' <= c <= 'z') || ('0' <= c <= '9') || c == '.' || c == '_' || c == '-'
  }

  predicate AllAllowed(s: string) {
    forall i :: 0 <= i < |s| ==> AllowedChar(s[i])
  }

  predicate NoDoubleUnderscore(s: string) {
    forall i :: 0 <= i < |s| - 1 ==> !(s[i] == '_' && s[i + 1] == '_')
  }

  predicate NoEdgeUnderscore(s: string) {
    s == [] || (s[0] != '_' && s[|s| - 1] != '_')
  }

  /** What `sanitizeFilename` promises of its result. */
  predicate SafeName(s: string) {
    AllAllowed(s) && NoDoubleUnderscore(s) && NoEdgeUnderscore(s)
  }

  /** The characters of a name that survive sanitizing: the allowed ones other
      than the separator `_`, in order. */
  function Kept(s: string): string {
    if s == [] then []
    else (if AllowedChar(s[0]) && s[0] != '_' then [s[0]] else []) + Kept(s[1..])
  }

  lemma {:induction false} KeptAppend(a: string, b: string)
    ensures Kept(a + b) == Kept(a) + Kept(b)
  {
    if a == [] {
      assert a + b == b;
    } else {
      assert (a + b)[0] == a[0] && (a + b)[1..] == a[1..] + b;
      KeptAppend(a[1..], b);
    }
  }

  /** `.replace(/[^a-zA-Z0-9._-]/g, "_")`. */
  function ReplaceDisallowed(s: string): (r: string)
    ensures |r| == |s|
    ensures forall i :: 0 <= i < |s| ==> r[i] == (if AllowedChar(s[i]) then s[i] else '_')
    ensures AllAllowed(r)
    ensures Kept(r) == Kept(s)
    ensures AllAllowed(s) ==> r == s
  {
    if s == [] then []
    else [if AllowedChar(s[0]) then s[0] else '_'] + ReplaceDisallowed(s[1..])
  }

  /** `.replace(/_{2,}/g, "_")`: every run of underscores becomes one. */
  function CollapseUnderscores(s: string): (r: string)
    ensures |r| <= |s|
    ensures s != [] ==> r != [] && r[0] == s[0]
    ensures NoDoubleUnderscore(r)
  {
    if |s| < 2 then s
    else if s[0] == '_' && s[1] == '_' then CollapseUnderscores(s[1..])
    else [s[0]] + CollapseUnderscores(s[1..])
  }

  /** Collapsing only drops underscores: it keeps every other character, and
      introduces no character that was not allowed. */
  lemma {:induction false} CollapseDropsOnlyUnderscores(s: string)
    ensures Kept(CollapseUnderscores(s)) == Kept(s)
    ensures AllAllowed(s) ==> AllAllowed(CollapseUnderscores(s))
    decreases |s|
  {
    if |s| >= 2 {
      CollapseDropsOnlyUnderscores(s[1..]);
      if !(s[0] == '_' && s[1] == '_') {
        var rest := CollapseUnderscores(s[1..]);
        assert ([s[0]] + rest)[1..] == rest;
      }
    }
  }

  /** A string without doubled underscores is left as it is. */
  lemma {:induction false} CollapseKeepsSingleUnderscores(s: string)
    ensures NoDoubleUnderscore(s) ==> CollapseUnderscores(s) == s
    decreases |s|
  {
    if |s| >= 2 && NoDoubleUnderscore(s) {
      CollapseKeepsSingleUnderscores(s[1..]);
      assert [s[0]] + s[1..] == s;
    }
  }

  /** The `^_+` half of `.replace(/^_+|_+$/g, "")`: drops a prefix of
      underscores and nothing else. */
  function TrimLeadingUnderscores(s: string): (r: string)
    ensures r == [] || r[0] != '_'
    ensures EndsWith(s, r)
    ensures forall i :: 0 <= i < |s| - |r| ==> s[i] == '_'
  {
    if s != [] && s[0] == '_' then TrimLeadingUnderscores(s[1..]) else s
  }

  /** The `_+$` half of `.replace(/^_+|_+$/g, "")`: drops a suffix of
      underscores and nothing else. */
  function TrimTrailingUnderscores(s: string): (r: string)
    ensures r == [] || r[|r| - 1] != '_'
    ensures StartsWith(s, r)
    ensures forall i :: |r| <= i < |s| ==> s[i] == '_'
  {
    if s != [] && s[|s| - 1] == '_' then TrimTrailingUnderscores(s[..|s| - 1]) else s
  }

  lemma {:induction false} UnderscoresKeepNothing(s: string)
    requires forall i :: 0 <= i < |s| ==> s[i] == '_'
    ensures Kept(s) == []
  {
    if s != [] {
      UnderscoresKeepNothing(s[1..]);
    }
  }

  /** Cutting underscores off both ends of a safe-character string keeps it
      free of doubled underscores and loses no kept character. */
  lemma {:induction false} CutUnderscores(s: string, lo: nat, hi: nat)
    requires lo <= hi <= |s|
    requires forall i :: 0 <= i < lo ==> s[i] == '_'
    requires forall i :: hi <= i < |s| ==> s[i] == '_'
    ensures Kept(s[lo..hi]) == Kept(s)
    ensures AllAllowed(s) ==> AllAllowed(s[lo..hi])
    ensures NoDoubleUnderscore(s) ==> NoDoubleUnderscore(s[lo..hi])
  {
    assert s == s[..lo] + s[lo..hi] + s[hi..];
    KeptAppend(s[..lo] + s[lo..hi], s[hi..]);
    KeptAppend(s[..lo], s[lo..hi]);
    UnderscoresKeepNothing(s[..lo]);
    UnderscoresKeepNothing(s[hi..]);
  }

  /** `sanitizeFilename`: the result has only allowed characters, no doubled
      and no leading or trailing underscore, and keeps every allowed
      non-underscore character of the input, in order. A name that already
      has that shape is returned unchanged. */
  function Sanitize(filename: string): (r: string)
    ensures SafeName(r)
    ensures Kept(r) == Kept(filename)
    ensures SafeName(filename) ==> r == filename
  {
    var collapsed := CollapseUnderscores(ReplaceDisallowed(filename));
    CollapseDropsOnlyUnderscores(ReplaceDisallowed(filename));
    CollapseKeepsSingleUnderscores(filename);
    TrimEdges(collapsed);
    TrimTrailingUnderscores(TrimLeadingUnderscores(collapsed))
  }

  /** The last step of `sanitizeFilename` on a string of allowed characters
      without doubled underscores. */
  lemma TrimEdges(s: string)
    requires AllAllowed(s) && NoDoubleUnderscore(s)
    ensures var r := TrimTrailingUnderscores(TrimLeadingUnderscores(s));
            SafeName(r) && Kept(r) == Kept(s) && (NoEdgeUnderscore(s) ==> r == s)
  {
    var leading := TrimLeadingUnderscores(s);
    var r := TrimTrailingUnderscores(leading);
    var lo := |s| - |leading|;
    var hi := lo + |r|;
    assert leading == s[lo..];
    assert r == leading[..|r|];
    assert r == s[lo..hi];
    forall i | hi <= i < |s| ensures s[i] == '_' {
      assert s[i] == leading[i - lo];
    }
    CutUnderscores(s, lo, hi);
    assert NoEdgeUnderscore(r) by {
      if r != [] {
        assert r[0] == leading[0];
      }
    }
    if NoEdgeUnderscore(s) {
      assert leading == s;
    }
  }

  /** Sanitizing twice is sanitizing once. */
  lemma SanitizeIdempotent(filename: string)
    ensures Sanitize(Sanitize(filename)) == Sanitize(filename)
  {
  }

  /** The names `sanitizeFilename` leaves alone are exactly the safe ones. */
  lemma SanitizeFixedPoints(filename: string)
    ensures Sanitize(filename) == filename <==> SafeName(filename)
  {
  }

  /** A run of two underscores collapses as a single one does, wherever it
      sits. With `CollapseKeepsSingleUnderscores` this determines the result
      of `CollapseUnderscores` on every input: each run becomes one `_`. */
  lemma {:induction false} CollapseRun(a: string, b: string)
    ensures CollapseUnderscores(a + "_" + "_" + b) == CollapseUnderscores(a + "_" + b)
    decreases |a|
  {
    var s := a + "_" + "_" + b;
    var t := a + "_" + b;
    if a == [] {
      assert s[1..] == t;
    } else {
      assert s[0] == t[0] && s[1] == t[1];
      assert s[1..] == a[1..] + "_" + "_" + b;
      assert t[1..] == a[1..] + "_" + b;
      CollapseRun(a[1..], b);
    }
  }

  /** A character that ends up as a separator: a disallowed one or `_` itself. */
  predicate Separator(c: char) {
    c == '_' || !AllowedChar(c)
  }

  /** Sanitizing treats every disallowed character as an underscore. */
  lemma SanitizeSeparator(p: string, c: char, q: string)
    requires Separator(c)
    ensures Sanitize(p + [c] + q) == Sanitize(p + "_" + q)
  {
    var x := p + [c] + q;
    var y := p + "_" + q;
    forall i | 0 <= i < |x| ensures ReplaceDisallowed(x)[i] == ReplaceDisallowed(y)[i] {
      if i != |p| {
        assert x[i] == y[i];
      }
    }
    assert ReplaceDisallowed(x) == ReplaceDisallowed(y);
  }

  /** `ReplaceDisallowed` works character by character. */
  lemma {:induction false} ReplaceAppend(a: string, b: string)
    ensures ReplaceDisallowed(a + b) == ReplaceDisallowed(a) + ReplaceDisallowed(b)
  {
    if a == [] {
      assert a + b == b;
    } else {
      assert (a + b)[0] == a[0] && (a + b)[1..] == a[1..] + b;
      ReplaceAppend(a[1..], b);
    }
  }

  /** Two adjacent underscores sanitize as one. */
  lemma SanitizeRun(a: string, b: string)
    ensures Sanitize(a + "_" + "_" + b) == Sanitize(a + "_" + b)
  {
    var ra := ReplaceDisallowed(a);
    var rb := ReplaceDisallowed(b);
    ReplaceAppend(a, "_");
    ReplaceAppend(a + "_", "_");
    ReplaceAppend(a + "_" + "_", b);
    ReplaceAppend(a + "_", b);
    assert ReplaceDisallowed("_") == "_";
    var rx := ReplaceDisallowed(a + "_" + "_" + b);
    var ry := ReplaceDisallowed(a + "_" + b);
    assert rx == ra + "_" + "_" + rb;
    assert ry == ra + "_" + rb;
    CollapseRun(ra, rb);
    assert CollapseUnderscores(rx) == CollapseUnderscores(ry);
  }

  /** Separators that follow an underscore disappear. */
  lemma {:induction false} AbsorbSeparators(p: string, sep: string, q: string)
    requires forall i :: 0 <= i < |sep| ==> Separator(sep[i])
    ensures Sanitize(p + "_" + sep + q) == Sanitize(p + "_" + q)
    decreases |sep|
  {
    if sep != [] {
      var rest := sep[1..];
      var tail := rest + q;
      var x0 := p + "_" + sep + q;
      var x1 := (p + "_") + [sep[0]] + tail;
      var x2 := p + "_" + "_" + tail;
      var x3 := p + "_" + tail;
      assert x0 == x1;
      SanitizeSeparator(p + "_", sep[0], tail);
      assert Sanitize(x1) == Sanitize(x2);
      SanitizeRun(p, tail);
      assert Sanitize(x2) == Sanitize(x3);
      assert x3 == p + "_" + rest + q;
      AbsorbSeparators(p, rest, q);
    } else {
      assert p + "_" + sep == p + "_";
    }
  }

  /** Any non-empty run of disallowed characters and underscores sanitizes as
      a single underscore. */
  lemma SeparatorsBecomeOne(p: string, sep: string, q: string)
    requires sep != [] && forall i :: 0 <= i < |sep| ==> Separator(sep[i])
    ensures Sanitize(p + sep + q) == Sanitize(p + "_" + q)
  {
    assert p + sep + q == p + [sep[0]] + (sep[1..] + q);
    SanitizeSeparator(p, sep[0], sep[1..] + q);
    var pu := p + "_";
    assert pu + (sep[1..] + q) == pu + sep[1..] + q;
    AbsorbSeparators(p, sep[1..], q);
  }

  /** Between two safe names, a run of separators becomes exactly one `_`:
      the word boundaries of a name survive sanitizing. */
  lemma JoinSafeNames(p: string, sep: string, q: string)
    requires SafeName(p) && SafeName(q) && p != [] && q != []
    requires sep != [] && forall i :: 0 <= i < |sep| ==> Separator(sep[i])
    ensures Sanitize(p + sep + q) == p + "_" + q
  {
    SeparatorsBecomeOne(p, sep, q);
    var pu := p + "_";
    var j := pu + q;
    forall i | 0 <= i < |j| - 1 ensures !(j[i] == '_' && j[i + 1] == '_') {
      if i < |p| - 1 {
        assert j[i] == p[i] && j[i + 1] == p[i + 1];
      } else if i > |p| {
        var k := i - |pu|;
        assert j[i] == q[k];
        assert j[i + 1] == q[k + 1];
      }
    }
    assert SafeName(j);
  }

  /** Collapsing a name with one more `_` at its end: the `_` joins a final
      run of underscores, and is kept otherwise. */
  lemma {:induction false} CollapseAppendUnderscore(x: string)
    ensures CollapseUnderscores(x + "_") ==
            if x != [] && x[|x| - 1] == '_' then CollapseUnderscores(x) else CollapseUnderscores(x) + "_"
    decreases |x|
  {
    var u := "_";
    var s := x + u;
    if |x| == 0 {
      assert s == u;
    } else if |x| == 1 {
      assert s[1..] == u;
    } else {
      assert s[0] == x[0] && s[1] == x[1] && s[1..] == x[1..] + u;
      CollapseAppendUnderscore(x[1..]);
      assert x[1..][|x| - 2] == x[|x| - 1];
      if !(x[0] == '_' && x[1] == '_') {
        var rest := CollapseUnderscores(x[1..]);
        assert [x[0]] + (rest + u) == ([x[0]] + rest) + u;
      }
    }
  }

  /** Dropping the leading underscores of a name with one more `_` at its end
      leaves that `_` after what it left before, unless nothing is left. */
  lemma {:induction false} TrimLeadingAppendUnderscore(c: string)
    ensures || (TrimLeadingUnderscores(c + "_") == [] && TrimLeadingUnderscores(c) == [])
            || TrimLeadingUnderscores(c + "_") == TrimLeadingUnderscores(c) + "_"
    decreases |c|
  {
    var u := "_";
    var s := c + u;
    if c == [] {
      assert s == u && s[1..] == [];
    } else if c[0] == '_' {
      assert s[0] == '_' && s[1..] == c[1..] + u;
      TrimLeadingAppendUnderscore(c[1..]);
    } else {
      assert s[0] == c[0];
    }
  }

  /** The edge trim ignores one more `_` at the end. */
  lemma TrimEdgesAppendUnderscore(c: string)
    ensures TrimTrailingUnderscores(TrimLeadingUnderscores(c + "_"))
         == TrimTrailingUnderscores(TrimLeadingUnderscores(c))
  {
    var u := "_";
    TrimLeadingAppendUnderscore(c);
    if TrimLeadingUnderscores(c + u) != [] {
      var s := TrimLeadingUnderscores(c) + u;
      assert s[|s| - 1] == '_' && s[..|s| - 1] == TrimLeadingUnderscores(c);
    }
  }

  /** An `_` at the start of a name is dropped by sanitizing. */
  lemma LeadingUnderscoreVanishes(q: string)
    ensures Sanitize("_" + q) == Sanitize(q)
  {
    var u := "_";
    var x := ReplaceDisallowed(q);
    ReplaceAppend(u, q);
    assert ReplaceDisallowed(u) == u;
    var s := u + x;
    var c := CollapseUnderscores(x);
    if x != [] && x[0] == '_' {
      assert s[0] == '_' && s[1] == '_' && s[1..] == x;
    } else {
      assert CollapseUnderscores(s) == u + c by {
        if |s| >= 2 {
          assert s[0] == '_' && s[1] == x[0] && s[1..] == x;
        } else {
          assert s == u + c;
        }
      }
      assert (u + c)[0] == '_' && (u + c)[1..] == c;
    }
  }

  /** An `_` at the end of a name is dropped by sanitizing. */
  lemma TrailingUnderscoreVanishes(q: string)
    ensures Sanitize(q + "_") == Sanitize(q)
  {
    var u := "_";
    var x := ReplaceDisallowed(q);
    ReplaceAppend(q, u);
    assert ReplaceDisallowed(u) == u;
    CollapseAppendUnderscore(x);
    if !(x != [] && x[|x| - 1] == '_') {
      TrimEdgesAppendUnderscore(CollapseUnderscores(x));
    }
  }

  /** A run of separators at the start of a name disappears. */
  lemma LeadingSeparatorsVanish(sep: string, q: string)
    requires sep != [] && forall i :: 0 <= i < |sep| ==> Separator(sep[i])
    ensures Sanitize(sep + q) == Sanitize(q)
  {
    var e: string := [];
    var u := "_";
    SeparatorsBecomeOne(e, sep, q);
    assert e + sep == sep && e + u == u;
    LeadingUnderscoreVanishes(q);
  }

  /** A run of separators at the end of a name disappears. */
  lemma TrailingSeparatorsVanish(q: string, sep: string)
    requires sep != [] && forall i :: 0 <= i < |sep| ==> Separator(sep[i])
    ensures Sanitize(q + sep) == Sanitize(q)
  {
    var e: string := [];
    var u := "_";
    SeparatorsBecomeOne(q, sep, e);
    assert q + sep + e == q + sep && q + u + e == q + u;
    TrailingUnderscoreVanishes(q);
  }

  /** `_a_b` becomes `a_b`: the leading separator goes, the inner one stays. */
  lemma EdgeSeparatorExample(name: string)
    requires name == "_a_b"
    ensures Sanitize(name) == "a_b"
  {
    DropLeadingSeparator(name, "a_b");
    SafeExample("a_b");
  }

  lemma DropLeadingSeparator(name: string, rest: string)
    requires name == "_a_b" && rest == "a_b"
    ensures Sanitize(name) == Sanitize(rest)
  {
    var u := "_";
    assert name == u + rest;
    LeadingSeparatorsVanish(u, rest);
  }

  lemma SafeExample(rest: string)
    requires rest == "a_b"
    ensures Sanitize(rest) == rest
  {
    assert rest[0] == 'a' && rest[1] == '_' && rest[2] == 'b';
    assert SafeName(rest);
  }

  /** `My File! v2.png` becomes `My_File_v2.png`. */
  lemma MyFileExample(name: string)
    requires name == "My File! v2.png"
    ensures Sanitize(name) == "My_File_v2.png"
  {
    FirstSeparator(name, "My_File! v2.png");
    SecondSeparators("My_File! v2.png", "My_File_v2.png");
  }

  lemma FirstSeparator(name: string, next: string)
    requires name == "My File! v2.png" && next == "My_File! v2.png"
    ensures Sanitize(name) == Sanitize(next)
  {
    assert name == "My" + " " + "File! v2.png";
    assert next == "My" + "_" + "File! v2.png";
    SeparatorsBecomeOne("My", " ", "File! v2.png");
  }

  lemma SecondSeparators(s: string, sanitized: string)
    requires s == "My_File! v2.png" && sanitized == "My_File_v2.png"
    ensures Sanitize(s) == sanitized
  {
    assert s == "My_File" + "! " + "v2.png";
    assert sanitized == "My_File" + "_" + "v2.png";
    JoinSafeNames("My_File", "! ", "v2.png");
  }

  // ---------------------------------------------------------------------------
  // getExtension

  lemma LowerKeepsDots(s: string)
    ensures forall i :: 0 <= i < |s| ==> (Lower(s)[i] == '.' <==> s[i] == '.')
  {
  }

  /** `getExtension`: empty for a name without a dot; otherwise the lower-cased
      suffix that starts at the last dot, i.e. a dot followed by no other dot
      that ends the lower-cased name. */
  function GetExtension(filename: string): (ext: string)
    ensures ext == "" <==> '.' !in filename
    ensures ext != "" ==> ext[0] == '.' && '.' !in ext[1..] && EndsWith(Lower(filename), ext)
    ensures IsLower(ext)
  {
    var dotIndex := LastIndexOf(filename, '.');
    if dotIndex == -1 then ""
    else
      LowerSuffixFromDot(filename, dotIndex);
      Lower(filename[dotIndex..])
  }

  /** The lower-cased suffix from the last dot starts with that dot, holds no
      other, and ends the lower-cased name. */
  lemma LowerSuffixFromDot(filename: string, i: int)
    requires 0 <= i < |filename| && filename[i] == '.' && '.' !in filename[i + 1..]
    ensures var ext := Lower(filename[i..]);
            ext[0] == '.' && '.' !in ext[1..] && EndsWith(Lower(filename), ext) && IsLower(ext)
  {
    LowerKeepsOneDot(filename[i..]);
    LowerOfSuffix(filename, i);
    LowerIsLower(filename[i..]);
  }

  lemma LowerKeepsOneDot(u: string)
    requires u != [] && u[0] == '.' && '.' !in u[1..]
    ensures Lower(u)[0] == '.' && '.' !in Lower(u)[1..]
  {
    assert u == [u[0]] + u[1..];
    LowerAppend([u[0]], u[1..]);
    NoDotAfterLower(u[1..]);
  }

  lemma LowerOfSuffix(s: string, i: int)
    requires 0 <= i <= |s|
    ensures EndsWith(Lower(s), Lower(s[i..]))
  {
    assert s == s[..i] + s[i..];
    LowerAppend(s[..i], s[i..]);
  }

  lemma NoDotAfterLower(s: string)
    requires '.' !in s
    ensures '.' !in Lower(s)
  {
    LowerKeepsDots(s);
  }

  /** The media type `types.ts` infers from a name is the one its
      `getExtension` suffix is listed under. */
  lemma ExtensionDecidesMediaType(filename: string)
    ensures MediaTypes.FromExtension(filename) == MediaTypes.ExtensionCategory(GetExtension(filename))
  {
    assert "" !in MediaTypes.ImageExtensions && "" !in MediaTypes.VideoExtensions
        && "" !in MediaTypes.AudioExtensions;
  }

  // ---------------------------------------------------------------------------
  // Key derivation

  /** The first group of a version-4 UUID: eight lower-case hex digits. */
  predicate IsIdSegment(id: string) {
    |id| == 8 && forall i :: 0 <= i < |id| ==> ('0' <= id[i] <= '9') || ('a' <= id[i] <= 'f')
  }

  /** Whether the form supplied a custom name that is not blank. */
  predicate HasCustomName(customName: Option<string>) {
    customName.Some? && Trim(customName.value) != ""
  }

  /** The key for an already sanitized custom name: it starts with `id_` and
      the name, the extension is appended exactly when the lower-cased name
      does not already end with it, and so the lower-cased key always ends
      with a lower-case extension. */
  function CustomKey(id: string, sanitized: string, extension: string): (key: string)
    ensures StartsWith(key, id + "_" + sanitized)
    ensures key == id + "_" + sanitized <==> EndsWith(Lower(sanitized), extension)
    ensures !EndsWith(Lower(sanitized), extension) ==> key == id + "_" + sanitized + extension
    ensures IsLower(extension) ==> EndsWith(Lower(key), extension)
  {
    KeyEndsWithExtension(id, sanitized, extension);
    if EndsWith(Lower(sanitized), extension) then id + "_" + sanitized
    else id + "_" + sanitized + extension
  }

  /** Both shapes of a custom-name key end, lower-cased, with the extension. */
  lemma KeyEndsWithExtension(id: string, sanitized: string, extension: string)
    ensures EndsWith(Lower(sanitized), extension) ==> EndsWith(Lower(id + "_" + sanitized), extension)
    ensures IsLower(extension) ==> EndsWith(Lower(id + "_" + sanitized + extension), extension)
    ensures StartsWith(id + "_" + sanitized + extension, id + "_" + sanitized)
  {
    var p := id + "_" + sanitized;
    assert (p + extension)[..|p|] == p;
    if EndsWith(Lower(sanitized), extension) {
      assert p == (id + "_") + sanitized;
      EndsWithLowerAppend(id + "_", sanitized, extension);
    }
    if IsLower(extension) {
      LowerOfLower(extension);
      EndsWithLowerAppend(p, extension, extension);
    }
  }

  /** The object key: `id_` and the sanitized trimmed custom name, with the
      file's extension appended unless the lower-cased name already ends with
      it; without a custom name, `id_` and the sanitized file name. Every key
      starts with `id_`; without a custom name the rest is a safe name, with
      one the lower-cased key ends with the file's extension. */
  function DeriveKey(id: string, fileName: string, customName: Option<string>): (key: string)
    ensures StartsWith(key, id + "_")
    ensures !HasCustomName(customName) ==> SafeName(key[|id| + 1..])
    ensures HasCustomName(customName) ==> EndsWith(Lower(key), GetExtension(fileName))
  {
    var extension := GetExtension(fileName);
    if HasCustomName(customName) then
      var sanitized := Sanitize(Trim(customName.value));
      var key := CustomKey(id, sanitized, extension);
      StartsWithPrefix(key, id + "_", sanitized);
      key
    else
      var key := id + "_" + Sanitize(fileName);
      assert key[|id| + 1..] == Sanitize(fileName);
      key
  }

  /** Without a custom name the key is `id_` and the sanitized file name, so
      everything after the id is a safe name. */
  lemma KeyFromFileName(id: string, fileName: string, customName: Option<string>)
    requires !HasCustomName(customName)
    ensures StartsWith(DeriveKey(id, fileName, customName), id + "_")
    ensures DeriveKey(id, fileName, customName)[|id| + 1..] == Sanitize(fileName)
    ensures SafeName(DeriveKey(id, fileName, customName)[|id| + 1..])
  {
    var key := DeriveKey(id, fileName, customName);
    assert key == (id + "_") + Sanitize(fileName);
  }

  /** A lower-cased string that ends with `suffix` still does after a prefix is put before it. */
  lemma EndsWithLowerAppend(p: string, s: string, suffix: string)
    requires EndsWith(Lower(s), suffix)
    ensures EndsWith(Lower(p + s), suffix)
  {
    LowerAppend(p, s);
    EndsWithAppend(Lower(p), Lower(s), suffix);
  }

  lemma EndsWithAppend(a: string, b: string, suffix: string)
    requires EndsWith(b, suffix)
    ensures EndsWith(a + b, suffix)
  {
    assert (a + b)[|a + b| - |suffix|..] == b[|b| - |suffix|..];
  }

  /** With a custom name the key starts with `id_` and the sanitized name, and
      its lower-cased form always ends with the file's extension. */
  lemma KeyFromCustomName(id: string, fileName: string, name: string)
    requires HasCustomName(Some(name))
    ensures DeriveKey(id, fileName, Some(name)) == CustomKey(id, Sanitize(Trim(name)), GetExtension(fileName))
    ensures var key := DeriveKey(id, fileName, Some(name));
            && StartsWith(key, id + "_" + Sanitize(Trim(name)))
            && EndsWith(Lower(key), GetExtension(fileName))
  {
  }

  /** A suffix that starts with a dot and ends the lower-cased `id_` + `s` lies
      inside `s` when the id has no dot. */
  lemma SuffixAvoidsId(id: string, s: string, suffix: string)
    requires '.' !in id
    requires suffix != [] && suffix[0] == '.'
    requires EndsWith(Lower(id + "_" + s), suffix)
    ensures EndsWith(Lower(s), suffix)
  {
    var p := id + "_";
    assert '.' !in p by {
      assert forall i :: 0 <= i < |p| ==> p[i] == '_' || p[i] == id[i];
    }
    LowerAppend(p, s);
    NoDotAfterLower(p);
    SuffixPastDotless(Lower(p), Lower(s), suffix);
  }

  /** A suffix that starts with a dot cannot reach back into a dotless prefix. */
  lemma SuffixPastDotless(a: string, b: string, suffix: string)
    requires '.' !in a
    requires suffix != [] && suffix[0] == '.'
    requires EndsWith(a + b, suffix)
    ensures EndsWith(b, suffix)
  {
    var ab := a + b;
    var start := |ab| - |suffix|;
    assert ab[start] == '.';
    assert start >= |a|;
    assert b[|b| - |suffix|..] == ab[start..];
  }

  /** The custom-name key never ends in the extension twice unless the
      sanitized name itself did. */
  lemma CustomKeyNotDoubled(id: string, sanitized: string, extension: string)
    requires '.' !in id
    requires extension != [] && extension[0] == '.'
    requires EndsWith(Lower(CustomKey(id, sanitized, extension)), extension + extension)
    ensures EndsWith(Lower(sanitized), extension + extension)
  {
    var key := CustomKey(id, sanitized, extension);
    if EndsWith(Lower(sanitized), extension) {
      SuffixAvoidsId(id, sanitized, extension + extension);
    } else {
      var p := id + "_" + sanitized;
      assert key == p + extension;
      LowerAppend(p, extension);
      PeelSuffix(Lower(p), Lower(extension), extension);
      SuffixAvoidsId(id, sanitized, extension);
    }
  }

  /** A string that ends in `e` twice, less a last part as long as `e`, ends in `e`. */
  lemma PeelSuffix(a: string, b: string, e: string)
    requires |b| == |e| && EndsWith(a + b, e + e)
    ensures EndsWith(a, e)
  {
    var n := |e|;
    var ab := a + b;
    assert a[|a| - n..] == ab[|ab| - 2 * n..|ab| - n];
    assert ab[|ab| - 2 * n..|ab| - n] == (e + e)[..n];
  }

  /** The extension is never doubled by the derivation: a key whose lower-cased
      form ends in the extension twice can only come from a custom name that
      already did. */
  lemma ExtensionNeverDoubled(id: string, fileName: string, name: string)
    requires IsIdSegment(id)
    requires HasCustomName(Some(name))
    ensures var ext := GetExtension(fileName);
            ext != "" && EndsWith(Lower(DeriveKey(id, fileName, Some(name))), ext + ext) ==>
              EndsWith(Lower(Sanitize(Trim(name))), ext + ext)
  {
    var ext := GetExtension(fileName);
    assert '.' !in id by {
      forall i | 0 <= i < |id| ensures id[i] != '.' {
      }
    }
    if ext != "" && EndsWith(Lower(DeriveKey(id, fileName, Some(name))), ext + ext) {
      CustomKeyNotDoubled(id, Sanitize(Trim(name)), ext);
    }
  }

  /** `sanitizeFilename` on a short name: the `!` and the space become
      underscores and the run they form collapses to one. */
  lemma SanitizeExample(name: string)
    requires name == "a! b"
    ensures Sanitize(name) == "a_b"
  {
    var replaced := ReplaceDisallowed(name);
    assert replaced == "a__b";
    var tail := replaced[2..];
    assert tail == "_b";
    CollapseKeepsSingleUnderscores(tail);
    assert replaced[1..][1..] == tail;
    var collapsed := CollapseUnderscores(replaced);
    assert collapsed == [replaced[0]] + CollapseUnderscores(replaced[1..]);
    assert CollapseUnderscores(replaced[1..]) == tail;
    TrimEdges(collapsed);
  }

  /** The extension of a name is the lower-cased suffix from a dot that has
      no other dot after it. */
  lemma ExtensionAfterLastDot(fileName: string, i: int)
    requires 0 <= i < |fileName| && fileName[i] == '.' && '.' !in fileName[i + 1..]
    ensures GetExtension(fileName) == Lower(fileName[i..])
  {
    LastIndexAt(fileName, '.', i);
  }

  /** A custom name that already ends with the file's extension, in any case,
      gets no second one: `a b.PNG` for `v.png` gives the key `<id>_a_b.PNG`. */
  lemma CustomNameExample(id: string, fileName: string, name: string)
    requires fileName == "v.png" && name == "a b.PNG"
    ensures DeriveKey(id, fileName, Some(name)) == id + "_" + "a_b.PNG"
  {
    PngExtension(fileName, ".png");
    SpacedNameTrimmed(name);
    SpacedNameSanitized(name, "a_b.PNG");
    PngSuffix("a_b.PNG", ".png");
  }

  lemma PngExtension(fileName: string, ext: string)
    requires fileName == "v.png" && ext == ".png"
    ensures GetExtension(fileName) == ext
  {
    assert fileName[2..] == "png";
    ExtensionAfterLastDot(fileName, 1);
    assert fileName[1..] == ext;
    LowerOfLower(ext);
  }

  lemma SpacedNameTrimmed(name: string)
    requires name == "a b.PNG"
    ensures Trim(name) == name
  {
    assert !IsJsWhitespace(name[0]) && !IsJsWhitespace(name[|name| - 1]);
  }

  lemma SpacedNameSanitized(name: string, sanitized: string)
    requires name == "a b.PNG" && sanitized == "a_b.PNG"
    ensures Sanitize(name) == sanitized
  {
    SpacedNameReplaced(name, sanitized);
    CollapseKeepsSingleUnderscores(sanitized);
    TrimEdges(sanitized);
  }

  lemma SpacedNameReplaced(name: string, replaced: string)
    requires name == "a b.PNG" && replaced == "a_b.PNG"
    ensures ReplaceDisallowed(name) == replaced
    ensures NoDoubleUnderscore(replaced) && NoEdgeUnderscore(replaced)
  {
    var r := ReplaceDisallowed(name);
    assert r == replaced;
    assert forall i :: 0 <= i < |replaced| && i != 1 ==> replaced[i] != '_';
  }

  lemma PngSuffix(s: string, ext: string)
    requires s == "a_b.PNG" && ext == ".png"
    ensures EndsWith(Lower(s), ext)
  {
    var lower := Lower(s);
    assert lower[3..] == ext;
  }

  /** The extension is appended as the file name had it, unsanitized: with a
      custom name, a key can hold characters outside `[A-Za-z0-9._-]`. */
  lemma AppendedExtensionIsNotSanitized(id: string, fileName: string, name: string)
    requires GetExtension(fileName) == ".a b" && name == "x"
    ensures DeriveKey(id, fileName, Some(name)) == id + "_" + "x" + ".a b"
    ensures !AllAllowed(DeriveKey(id, fileName, Some(name)))
  {
    PlainNameKept(name);
    var key := DeriveKey(id, fileName, Some(name));
    assert key == CustomKey(id, name, ".a b");
    assert key == id + "_" + name + ".a b";
    SpaceAfterName(id, name, ".a b");
  }

  lemma SpaceAfterName(id: string, name: string, ext: string)
    requires |name| == 1 && ext == ".a b"
    ensures !AllAllowed(id + "_" + name + ext)
  {
    var key := id + "_" + name + ext;
    assert key[|id| + 4] == ' ';
  }

  /** Such a file name: `v.a b`. */
  lemma SpacedExtension(fileName: string, ext: string)
    requires fileName == "v.a b" && ext == ".a b"
    ensures GetExtension(fileName) == ext
  {
    assert fileName[2..] == "a b";
    ExtensionAfterLastDot(fileName, 1);
    assert fileName[1..] == ext;
    LowerOfLower(ext);
  }

  lemma PlainNameKept(name: string)
    requires name == "x"
    ensures Trim(name) == name && Sanitize(name) == name
    ensures !EndsWith(Lower(name), ".a b")
  {
    assert Trim(name) == name;
    assert SafeName(name);
  }

  /** Every key derived without a custom name is left unchanged by
      `encodeURIComponent`, so its embed link names it verbatim. */
  lemma PlainKeyEmbedUrl(cfg: R2.Config, id: string, fileName: string, customName: Option<string>)
    requires IsIdSegment(id)
    requires !HasCustomName(customName)
    ensures R2.GetEmbedUrl(cfg, DeriveKey(id, fileName, customName))
              == R2.AppUrl(cfg) + "/view/" + DeriveKey(id, fileName, customName)
  {
    var key := DeriveKey(id, fileName, customName);
    KeyFromFileName(id, fileName, customName);
    forall i | 0 <= i < |key| ensures R2.Unreserved(key[i]) {
      if i > |id| {
        assert key[i] == key[|id| + 1..][i - |id| - 1];
      }
    }
    R2.EmbedUrlOfPlainKey(cfg, key);
  }

  // ---------------------------------------------------------------------------
  // The POST handler

  /** The `file` entry of the form: its name, its declared type and its bytes. */
  datatype FormFile = FormFile(name: string, mimeType: string, bytes: seq<Utf8.byte>)

  datatype UploadForm = UploadForm(file: Option<FormFile>, customName: Option<string>)

  datatype Rejection = NoFile | TooLarge | EmptyFile

  datatype UploadResponse =
    | Unauthorized                       // 401
    | BadRequest(reason: Rejection)      // 400
    | InsufficientSpace(remaining: int)  // 413
    | UploadFailed                       // 500
    | Uploaded(file: R2.UploadedFile)    // 200

  function Status(r: UploadResponse): int {
    match r
    case Unauthorized => 401
    case BadRequest(_) => 400
    case InsufficientSpace(_) => 413
    case UploadFailed => 500
    case Uploaded(_) => 200
  }

  /** `files.reduce((sum, f) => sum + f.size, 0)`: no file is larger than the
      total. */
  function TotalSize(files: seq<R2.FileListItem>): (total: nat)
    ensures files == [] ==> total == 0
    ensures forall k :: 0 <= k < |files| ==> files[k].size <= total
    ensures |files| == 1 ==> total == files[0].size
  {
    if files == [] then 0
    else
      var init := files[..|files| - 1];
      assert forall k :: 0 <= k < |files| - 1 ==> files[k] == init[k];
      TotalSize(init) + files[|files| - 1].size
  }

  /** The sum over a listing is the sum over its parts, however it is split. */
  lemma {:induction false} TotalSizeAppend(a: seq<R2.FileListItem>, b: seq<R2.FileListItem>)
    ensures TotalSize(a + b) == TotalSize(a) + TotalSize(b)
    decreases |b|
  {
    if b == [] {
      assert a + b == a;
    } else {
      var ab := a + b;
      assert ab[..|ab| - 1] == a + b[..|b| - 1];
      TotalSizeAppend(a, b[..|b| - 1]);
    }
  }

  function Max(a: int, b: int): int {
    if a >= b then a else b
  }

  /** The outcome of the checks made before anything is written. */
  datatype Admission =
    | Refused(response: UploadResponse)
    | Admitted(file: FormFile, customName: Option<string>)

  /** The checks of the handler, in order: the body must be form data (else
      500), hold a file (else 400), of at most 100 MiB (else 400) and not
      empty (else 400); the bucket must be listable (else 500) and have room
      for the file (else 413 with the room left). `form` is None when the body
      is not multipart form data, `listing` is None when listing failed. */
  function Admit(form: Option<UploadForm>, listing: Option<seq<R2.FileListItem>>, limit: int): (a: Admission)
    ensures form.None? ==> a == Refused(UploadFailed)
    ensures form.Some? && form.value.file.None? ==> a == Refused(BadRequest(NoFile))
    ensures form.Some? && form.value.file.Some? && |form.value.file.value.bytes| > MaxFileSize ==>
              a == Refused(BadRequest(TooLarge))
    ensures form.Some? && form.value.file.Some? && |form.value.file.value.bytes| == 0 ==>
              a == Refused(BadRequest(EmptyFile))
    ensures (form.Some? && form.value.file.Some? && 0 < |form.value.file.value.bytes| <= MaxFileSize
             && listing.None?) ==> a == Refused(UploadFailed)
    ensures a.Admitted? <==>
              && form.Some? && form.value.file.Some?
              && 0 < |form.value.file.value.bytes| <= MaxFileSize
              && listing.Some? && TotalSize(listing.value) + |form.value.file.value.bytes| <= limit
    ensures a.Admitted? ==> a.file == form.value.file.value && a.customName == form.value.customName
    ensures a.Refused? ==> Status(a.response) in {400, 413, 500}
    ensures a.Refused? && a.response.InsufficientSpace? ==>
              && form.Some? && form.value.file.Some?
              && 0 <= a.response.remaining < |form.value.file.value.bytes|
  {
    if form.None? then Refused(UploadFailed)
    else if form.value.file.None? then Refused(BadRequest(NoFile))
    else
      var file := form.value.file.value;
      var size := |file.bytes|;
      if size > MaxFileSize then Refused(BadRequest(TooLarge))
      else if size == 0 then Refused(BadRequest(EmptyFile))
      else if listing.None? then Refused(UploadFailed)
      else
        var totalUsed := TotalSize(listing.value);
        if totalUsed + size > limit then Refused(InsufficientSpace(Max(0, limit - totalUsed)))
        else Admitted(file, form.value.customName)
  }

  /** The size checks come before the quota, and the quota is decided by the
      sum of the listed sizes alone: an acceptable file is refused with 413
      exactly when it would push the total past the limit, and the figure
      reported is what is left below the limit, never negative. */
  lemma QuotaGate(form: UploadForm, listing: seq<R2.FileListItem>, limit: int)
    requires form.file.Some?
    ensures var size := |form.file.value.bytes|;
            var a := Admit(Some(form), Some(listing), limit);
            && (size > MaxFileSize ==> a == Refused(BadRequest(TooLarge)))
            && (size == 0 ==> a == Refused(BadRequest(EmptyFile)))
            && (0 < size <= MaxFileSize ==>
                  (a == Refused(InsufficientSpace(Max(0, limit - TotalSize(listing))))
                   <==> TotalSize(listing) + size > limit))
  {
  }

  /** The handler once the caller is authenticated: `stored` says whether the
      PUT to the bucket succeeded, `id` is the first group of a fresh UUID and
      `limit` the configured bucket limit. An admitted file is stored under the
      derived key with its declared type, or `application/octet-stream`. */
  function Handle(form: Option<UploadForm>, listing: Option<seq<R2.FileListItem>>, limit: int,
                  id: string, cfg: R2.Config, uploadedAt: string, stored: bool): (r: UploadResponse)
    ensures Admit(form, listing, limit).Refused? ==> r == Admit(form, listing, limit).response
    ensures Admit(form, listing, limit).Admitted? && !stored ==> r == UploadFailed
    ensures r.Uploaded? <==> Admit(form, listing, limit).Admitted? && stored
    ensures r.Uploaded? ==>
              var file := form.value.file.value;
              r.file == R2.UploadFile(cfg, DeriveKey(id, file.name, form.value.customName), file.bytes,
                                      if file.mimeType != "" then file.mimeType else R2.DefaultContentType, uploadedAt)
    ensures r.Uploaded? ==>
              var file := form.value.file.value;
              && r.file.size == |file.bytes|
              && r.file.key == DeriveKey(id, file.name, form.value.customName)
              && r.file.contentType == (if file.mimeType != "" then file.mimeType else R2.DefaultContentType)
              && r.file.url == R2.GetPublicUrl(cfg, r.file.key)
              && r.file.embedUrl == R2.GetEmbedUrl(cfg, r.file.key)
              && r.file.uploadedAt == uploadedAt
  {
    match Admit(form, listing, limit)
    case Refused(response) => response
    case Admitted(file, customName) =>
      var key := DeriveKey(id, file.name, customName);
      var contentType := if file.mimeType != "" then file.mimeType else R2.DefaultContentType;
      if !stored then UploadFailed
      else Uploaded(R2.UploadFile(cfg, key, file.bytes, contentType, uploadedAt))
  }

  /** `POST /api/upload`: an unauthenticated caller gets 401 before anything
      else is looked at; the session lookup may evict an expired session. */
  method Post(store: Auth.SessionStore, cookie: Option<string>, now: int,
              form: Option<UploadForm>, listing: Option<seq<R2.FileListItem>>, limit: int,
              id: string, cfg: R2.Config, uploadedAt: string, stored: bool)
    returns (r: UploadResponse)
    modifies store
    ensures r == if Truthy(cookie) && Auth.Live(old(store.sessions), store.hashToken(cookie.value), now)
                 then Handle(form, listing, limit, id, cfg, uploadedAt, stored)
                 else Unauthorized
    ensures store.sessions == if Truthy(cookie) then Auth.AfterCheck(old(store.sessions), store.hashToken(cookie.value), now)
                              else old(store.sessions)
  {
    var authenticated := store.IsAuthenticated(cookie, now);
    if !authenticated {
      return Unauthorized;
    }
    r := Handle(form, listing, limit, id, cfg, uploadedAt, stored);
  }
}
