/**
 * Resolution of the name of the native PC/SC library on Unix: an optional
 * override taken from a system property, with the `$LIBISA` macro expanded
 * to the directory for the JVM's pointer width, and a fixed fallback name
 * that is left to the dynamic loader.  The system properties are an
 * explicit parameter rather than global state.
 */
module PlatformPCSC {
  import opened JavaString

  /** The JVM's system properties, key to value; a missing key is an unset property. */
  type Properties = map<string, string>

  /** Property that names an override library. */
  const LibraryProperty: string := "sun.security.smartcardio.library"
  /** Property that holds the pointer width of the JVM ("32" or "64"). */
  const DataModelProperty: string := "sun.arch.data.model"

  /** Fallback name, resolved by the dynamic loader's own search. */
  const Lib0: string := "libpcsclite.so.1"
  /** Library paths of the usual Linux layouts, written with the macro. */
  const Lib1: string := "/usr/$LIBISA/libpcsclite.so"
  const Lib2: string := "/usr/local/$LIBISA/libpcsclite.so"

  /** The macro that stands for the library directory. */
  const Token: string := "$LIBISA"
  const TokenLength: nat := 7

  /** `System.getProperty(key, default)`. */
  function GetProperty(props: Properties, key: string, default: string): (v: string)
    ensures key in props ==> v == props[key]
    ensures key !in props ==> v == default
  {
    if key in props then props[key] else default
  }

  /**
   * Library directory for the pointer width: `lib64` exactly when the
   * data-model property is set to "64"; `lib` when it is unset or anything else.
   */
  function LibDir(props: Properties): (d: string)
    ensures d == "lib64" <==> DataModelProperty in props && props[DataModelProperty] == "64"
    ensures d == "lib64" || d == "lib"
  {
    if DataModelProperty in props && props[DataModelProperty] == "64" then "lib64" else "lib"
  }

  /**
   * Replaces the first `$LIBISA` of `lib` by the library directory; a string
   * without the macro comes back unchanged.
   */
  function Expand(lib: string, props: Properties): (r: string)
    ensures (forall k: nat :: !OccursAt(lib, Token, k)) ==> r == lib
    ensures forall k: nat ::
              OccursAt(lib, Token, k) && (forall j: nat :: j < k ==> !OccursAt(lib, Token, j)) ==>
                r == lib[..k] + LibDir(props) + lib[k + TokenLength..]
  {
    var k := IndexOf(lib, Token);
    if k == NotFound then lib
    else lib[..k] + LibDir(props) + lib[k + TokenLength..]
  }

  /**
   * The name of the library to load: the trimmed override, expanded, when
   * that is non-empty; the fallback name otherwise.
   */
  function LibraryName(props: Properties): (r: string)
    ensures |r| > 0
  {
    var lib := Expand(Trim(GetProperty(props, LibraryProperty, "")), props);
    if |lib| != 0 then lib else Lib0
  }

  // ---------------------------------------------------------------------
  // Properties of Expand

  /** A string without the macro comes back unchanged. */
  lemma ExpandWithoutToken(lib: string, props: Properties)
    requires forall k: nat :: !OccursAt(lib, Token, k)
    ensures Expand(lib, props) == lib
  {
  }

  /**
   * When the macro occurs first at `k`, everything before it and everything
   * after it (later macros included) is kept verbatim around the directory.
   */
  lemma ExpandFirstToken(lib: string, props: Properties, k: nat)
    requires OccursAt(lib, Token, k)
    requires forall j: nat :: j < k ==> !OccursAt(lib, Token, j)
    ensures Expand(lib, props) == lib[..k] + LibDir(props) + lib[k + TokenLength..]
  {
    IndexOfFirst(lib, Token, k);
  }

  /**
   * Expanding the macro shortens the string by four characters for `lib`
   * and by two for `lib64`.
   */
  lemma ExpandLength(lib: string, props: Properties, k: nat)
    requires OccursAt(lib, Token, k)
    ensures |Expand(lib, props)| == |lib| - TokenLength + |LibDir(props)|
    ensures |Expand(lib, props)| == if LibDir(props) == "lib64" then |lib| - 2 else |lib| - 4
  {
    assert IndexOf(lib, Token) != NotFound;
    if LibDir(props) == "lib64" {
      assert |LibDir(props)| == 5;
    } else {
      assert |LibDir(props)| == 3;
    }
  }

  /** Expansion never turns a non-empty string into the empty one, nor the reverse. */
  lemma ExpandEmptyIff(lib: string, props: Properties)
    ensures Expand(lib, props) == [] <==> lib == []
  {
    var k := IndexOf(lib, Token);
    if k != NotFound {
      ExpandLength(lib, props, k);
    }
  }

  /** A string with no `$` in it holds no macro. */
  lemma NoDollarNoToken(s: string)
    requires '$' !in s
    ensures forall k: nat :: !OccursAt(s, Token, k)
  {
    forall k: nat | k + TokenLength <= |s| ensures !OccursAt(s, Token, k) {
      assert s[k..k + TokenLength][0] == s[k];
    }
  }

  /** The macro at `k` is the first one when no `$` comes before it. */
  lemma FirstTokenAfterDollarFreePrefix(s: string, k: nat)
    requires OccursAt(s, Token, k)
    requires '$' !in s[..k]
    ensures IndexOf(s, Token) == k
  {
    forall j: nat | j < k ensures !OccursAt(s, Token, j) {
      if j + TokenLength <= |s| {
        assert s[j..j + TokenLength][0] == s[..k][j];
      }
    }
    IndexOfFirst(s, Token, k);
  }

  /** Occurrences in a suffix are occurrences in the whole, shifted by the prefix. */
  lemma OccursShift(x: string, y: string, t: string, j: nat)
    ensures OccursAt(x + y, t, |x| + j) <==> OccursAt(y, t, j)
  {
    if j + |t| <= |y| {
      assert (x + y)[|x| + j..|x| + j + |t|] == y[j..j + |t|];
    }
  }

  /** No character of a library directory appears in the macro. */
  lemma LibDirAvoidsToken(props: Properties, i: nat, j: nat)
    requires i < |LibDir(props)| && j < |Token|
    ensures LibDir(props)[i] != Token[j]
  {
  }

  /**
   * Putting a non-empty directory whose characters avoid the macro in place
   * of the first macro leaves the first macro of the suffix as the next one.
   * (With an empty directory the two sides could join into a new macro.)
   */
  lemma ReplaceFirstToken(lib: string, d: string, k: nat)
    requires OccursAt(lib, Token, k)
    requires forall j: nat :: j < k ==> !OccursAt(lib, Token, j)
    requires |d| > 0
    requires forall i, j :: 0 <= i < |d| && 0 <= j < |Token| ==> d[i] != Token[j]
    ensures var suffix := lib[k + TokenLength..];
            var j := IndexOf(suffix, Token);
            IndexOf(lib[..k] + d + suffix, Token) ==
              if j == NotFound then NotFound else k + |d| + j
  {
    var head := lib[..k] + d;
    var suffix := lib[k + TokenLength..];
    var r := head + suffix;
    forall p: nat | p < k + |d| ensures !OccursAt(r, Token, p) {
      if p + TokenLength <= k {
        assert r[p..p + TokenLength] == lib[p..p + TokenLength];
        assert !OccursAt(lib, Token, p);
      } else if p + TokenLength <= |r| {
        var q := if p < k then k else p;
        assert r[q] == d[q - k];
        assert r[p..p + TokenLength][q - p] == r[q];
        assert d[q - k] != Token[q - p];
        assert r[p..p + TokenLength] != Token;
      }
    }
    forall j: nat ensures OccursAt(r, Token, |head| + j) <==> OccursAt(suffix, Token, j) {
      OccursShift(head, suffix, Token, j);
    }
    var j := IndexOf(suffix, Token);
    if j == NotFound {
      forall p: nat ensures !OccursAt(r, Token, p) {
        if p >= |head| {
          assert OccursAt(r, Token, |head| + (p - |head|)) <==> OccursAt(suffix, Token, p - |head|);
        }
      }
    } else {
      forall p: nat | p < |head| + j ensures !OccursAt(r, Token, p) {
        if p >= |head| {
          assert OccursAt(r, Token, |head| + (p - |head|)) <==> OccursAt(suffix, Token, p - |head|);
        }
      }
      IndexOfFirst(r, Token, |head| + j);
    }
  }

  /**
   * Only the first macro is replaced, and the replacement cannot combine
   * with its neighbours into a new one: the first macro of the result is
   * the first macro of the untouched suffix.
   */
  lemma ExpandNextToken(lib: string, props: Properties, k: nat)
    requires OccursAt(lib, Token, k)
    requires forall j: nat :: j < k ==> !OccursAt(lib, Token, j)
    ensures var suffix := lib[k + TokenLength..];
            var j := IndexOf(suffix, Token);
            IndexOf(Expand(lib, props), Token) ==
              if j == NotFound then NotFound else k + |LibDir(props)| + j
  {
    var d := LibDir(props);
    forall i, j | 0 <= i < |d| && 0 <= j < |Token| ensures d[i] != Token[j] {
      LibDirAvoidsToken(props, i, j);
    }
    ExpandFirstToken(lib, props, k);
    ReplaceFirstToken(lib, d, k);
  }

  /** A macro after a `$`-free prefix is replaced by the library directory. */
  lemma ExpandAfterDollarFreePrefix(pre: string, post: string, props: Properties)
    requires '$' !in pre
    ensures Expand(pre + Token + post, props) == pre + LibDir(props) + post
  {
    var s := pre + Token + post;
    var k := |pre|;
    assert s[..k] == pre;
    assert s[k..k + TokenLength] == Token;
    assert s[k + TokenLength..] == post;
    FirstTokenAfterDollarFreePrefix(s, k);
  }

  /** `/usr/$LIBISA/libpcsclite.so` names `lib64` or `lib` under `/usr`. */
  lemma ExpandLib1(props: Properties)
    ensures Expand(Lib1, props) == "/usr/" + LibDir(props) + "/libpcsclite.so"
  {
    assert Lib1 == "/usr/" + Token + "/libpcsclite.so";
    ExpandAfterDollarFreePrefix("/usr/", "/libpcsclite.so", props);
  }

  /** `/usr/local/$LIBISA/libpcsclite.so` names `lib64` or `lib` under `/usr/local`. */
  lemma ExpandLib2(props: Properties)
    ensures Expand(Lib2, props) == "/usr/local/" + LibDir(props) + "/libpcsclite.so"
  {
    assert Lib2 == "/usr/local/" + Token + "/libpcsclite.so";
    ExpandAfterDollarFreePrefix("/usr/local/", "/libpcsclite.so", props);
  }

  /** How the two Linux paths read once a directory is put in. */
  lemma SpellPaths(d: string, e1: string, e2: string)
    requires e1 == "/usr/" + d + "/libpcsclite.so"
    requires e2 == "/usr/local/" + d + "/libpcsclite.so"
    ensures d == "lib64" ==> e1 == "/usr/lib64/libpcsclite.so" && e2 == "/usr/local/lib64/libpcsclite.so"
    ensures d == "lib" ==> e1 == "/usr/lib/libpcsclite.so" && e2 == "/usr/local/lib/libpcsclite.so"
  {
  }

  /**
   * The Linux paths name `lib64` on a 64-bit JVM and `lib` on any other
   * (an unset data-model property included).
   */
  lemma ExpandLinuxPaths(props: Properties)
    ensures GetProperty(props, DataModelProperty, "") == "64" ==>
              Expand(Lib1, props) == "/usr/lib64/libpcsclite.so" &&
              Expand(Lib2, props) == "/usr/local/lib64/libpcsclite.so"
    ensures GetProperty(props, DataModelProperty, "") != "64" ==>
              Expand(Lib1, props) == "/usr/lib/libpcsclite.so" &&
              Expand(Lib2, props) == "/usr/local/lib/libpcsclite.so"
  {
    ExpandLib1(props);
    ExpandLib2(props);
    SpellPaths(LibDir(props), Expand(Lib1, props), Expand(Lib2, props));
  }

  // ---------------------------------------------------------------------
  // Properties of LibraryName

  /** The fallback is taken exactly when the override property is unset or blank. */
  lemma FallbackIff(props: Properties)
    ensures var v := GetProperty(props, LibraryProperty, "");
            Expand(Trim(v), props) == [] <==> AllBlank(v)
  {
    var v := GetProperty(props, LibraryProperty, "");
    ExpandEmptyIff(Trim(v), props);
    TrimEmptyIff(v);
  }

  /** A property holding a non-blank character selects the expanded, trimmed override. */
  lemma LibraryNameOverride(props: Properties)
    requires !AllBlank(GetProperty(props, LibraryProperty, ""))
    ensures LibraryName(props) == Expand(Trim(props[LibraryProperty]), props)
  {
    FallbackIff(props);
  }

  /** An unset, empty or all-blank property selects the fallback name. */
  lemma LibraryNameDefault(props: Properties)
    requires AllBlank(GetProperty(props, LibraryProperty, ""))
    ensures LibraryName(props) == Lib0
  {
    FallbackIff(props);
  }

  /** The fallback name has no blanks to trim. */
  lemma TrimLib0()
    ensures Trim(Lib0) == Lib0
  {
    assert !Blank(Lib0[0]) && !Blank(Lib0[|Lib0| - 1]);
    assert Lib0 == [] + Lib0 + [];
    TrimOfPadded([], Lib0, []);
  }

  /**
   * Returning the fallback name does not show that the property was unset:
   * an override that names the same library gives the same answer.
   */
  lemma OverrideCanNameFallback(props: Properties)
    requires GetProperty(props, LibraryProperty, "") == Lib0
    ensures !AllBlank(GetProperty(props, LibraryProperty, ""))
    ensures LibraryName(props) == Lib0
  {
    assert !Blank(Lib0[0]);
    LibraryNameOverride(props);
    TrimLib0();
    NoDollarNoToken(Lib0);
    ExpandWithoutToken(Lib0, props);
  }

  /** Expansion reads the properties only through the library directory. */
  lemma ExpandSameDir(lib: string, p1: Properties, p2: Properties)
    requires LibDir(p1) == LibDir(p2)
    ensures Expand(lib, p1) == Expand(lib, p2)
  {
  }

  /** Setting the override leaves the library directory as it was. */
  lemma OverrideKeepsLibDir(props: Properties, v: string)
    ensures LibDir(props[LibraryProperty := v]) == LibDir(props)
  {
    assert LibraryProperty[4] != DataModelProperty[4];
  }

  /** The resolved name depends on the override only through its trimmed value. */
  lemma LibraryNameOfTrimmed(p1: Properties, p2: Properties)
    requires Trim(GetProperty(p1, LibraryProperty, "")) == Trim(GetProperty(p2, LibraryProperty, ""))
    requires LibDir(p1) == LibDir(p2)
    ensures LibraryName(p1) == LibraryName(p2)
  {
    ExpandSameDir(Trim(GetProperty(p1, LibraryProperty, "")), p1, p2);
  }

  /** Blanks around the override do not matter. */
  lemma LibraryNameIgnoresPadding(props: Properties, v: string)
    ensures LibraryName(props[LibraryProperty := v]) ==
            LibraryName(props[LibraryProperty := Trim(v)])
  {
    TrimIdempotent(v);
    OverrideKeepsLibDir(props, v);
    OverrideKeepsLibDir(props, Trim(v));
    LibraryNameOfTrimmed(props[LibraryProperty := v], props[LibraryProperty := Trim(v)]);
  }

  /** The Linux path has no blanks to trim. */
  lemma TrimLib1()
    ensures Trim(Lib1) == Lib1
  {
    assert !Blank(Lib1[0]) && !Blank(Lib1[|Lib1| - 1]);
    assert Lib1 == [] + Lib1 + [];
    TrimOfPadded([], Lib1, []);
  }

  /** The `/usr` path given as override resolves for a 64-bit and for any other JVM. */
  lemma LibraryNameOfLinuxPath(props: Properties)
    requires GetProperty(props, LibraryProperty, "") == Lib1
    ensures GetProperty(props, DataModelProperty, "") == "64" ==>
              LibraryName(props) == "/usr/lib64/libpcsclite.so"
    ensures GetProperty(props, DataModelProperty, "") != "64" ==>
              LibraryName(props) == "/usr/lib/libpcsclite.so"
  {
    assert !Blank(Lib1[0]);
    LibraryNameOverride(props);
    TrimLib1();
    ExpandLinuxPaths(props);
  }
}
