/**
 * The language detector of src/features/diff/utils/parse-patch.ts, kept in
 * its own module so that its large table stays out of the parser's proofs.
 */
module LanguageDetect {
  import opened Strings

  // ---------------------------------------------------------------------------
  // Language detection
  // ---------------------------------------------------------------------------

  /** The extension-to-language table of `detectLanguage`. */
  const LanguageTable: map<string, string> := map[
    "ts" := "typescript", "tsx" := "typescript",
    "js" := "javascript", "jsx" := "javascript", "mjs" := "javascript", "cjs" := "javascript",
    "py" := "python", "pyw" := "python",
    "html" := "html", "htm" := "html",
    "css" := "css", "scss" := "css", "less" := "css",
    "json" := "json", "xml" := "xml", "yaml" := "yaml", "yml" := "yaml",
    "java" := "java", "kt" := "kotlin", "cs" := "csharp", "go" := "go", "rs" := "rust",
    "rb" := "ruby", "php" := "php", "swift" := "swift",
    "c" := "c", "cpp" := "cpp", "h" := "c", "hpp" := "cpp",
    "sh" := "bash", "bash" := "bash", "zsh" := "bash",
    "sql" := "sql", "md" := "markdown", "markdown" := "markdown"
  ]

  /** `filename.split('.').pop()`: the text after the last dot, or the whole name when there is none. */
  function Extension(filename: string): string {
    var parts := Split(filename, '.');
    parts[|parts| - 1]
  }

  /** `detectLanguage`: the table entry of the lower-cased extension, `plaintext` when there is none. */
  function DetectLanguage(filename: string): (language: string)
    ensures language in LanguageTable.Values || language == "plaintext"
  {
    LookUp(ToLower(Extension(filename)))
  }

  /** The table entry of a lower-cased extension, `plaintext` when there is none. */
  function LookUp(ext: string): (language: string)
    ensures language in LanguageTable.Values || language == "plaintext"
  {
    if ext in LanguageTable then LanguageTable[ext] else "plaintext"
  }

  lemma {:induction false} JoinLast(parts: seq<string>, sep: char)
    requires |parts| >= 2
    ensures Join(parts, sep) == Join(parts[..|parts| - 1], sep) + [sep] + parts[|parts| - 1]
    decreases |parts|
  {
    if |parts| > 2 {
      JoinLast(parts[1..], sep);
      assert parts[1..][..|parts| - 2] == parts[1..|parts| - 1];
      assert parts[..|parts| - 1][1..] == parts[1..|parts| - 1];
    }
  }

  /** The extension holds no dot and is either the whole name or what follows its last dot. */
  lemma ExtensionIsAfterLastDot(filename: string)
    ensures '.' !in Extension(filename)
    ensures ('.' !in filename && Extension(filename) == filename)
            || ('.' in filename
                && exists stem :: filename == stem + "." + Extension(filename))
  {
    var parts := Split(filename, '.');
    if |parts| == 1 {
      assert Join(parts, '.') == parts[0];
    } else {
      JoinLast(parts, '.');
      var stem := Join(parts[..|parts| - 1], '.');
      assert filename == stem + "." + Extension(filename);
      assert filename[|stem|] == '.';
    }
  }

  function LowerAll(parts: seq<string>): (r: seq<string>)
    ensures |r| == |parts|
    ensures forall i :: 0 <= i < |parts| ==> r[i] == ToLower(parts[i])
  {
    if |parts| == 0 then [] else [ToLower(parts[0])] + LowerAll(parts[1..])
  }

  lemma {:induction false} SplitLower(s: string)
    ensures Split(ToLower(s), '.') == LowerAll(Split(s, '.'))
    decreases |s|
  {
    if |s| > 0 {
      var l := ToLower(s);
      assert l[1..] == ToLower(s[1..]);
      SplitLower(s[1..]);
      var rest := Split(s[1..], '.');
      if s[0] != '.' {
        assert ToLower([s[0]] + rest[0]) == [LowerChar(s[0])] + ToLower(rest[0]);
        assert LowerAll(Split(s, '.'))[1..] == LowerAll(rest)[1..];
      }
    }
  }

  /** The extension of the lower-cased name is the lower-cased extension. */
  lemma {:induction false} ExtensionLower(filename: string)
    ensures Extension(ToLower(filename)) == ToLower(Extension(filename))
  {
    var parts := Split(filename, '.');
    var lowered := Split(ToLower(filename), '.');
    assert lowered == LowerAll(parts) by { SplitLower(filename); }
    assert |lowered| == |parts|;
    assert lowered[|parts| - 1] == ToLower(parts[|parts| - 1]);
  }

  /** Upper and lower case spell the same language: `FILE.TS` and `file.ts` are both TypeScript. */
  lemma {:induction false} DetectLanguageCaseInsensitive(filename: string)
    ensures DetectLanguage(ToLower(filename)) == DetectLanguage(filename)
  {
    var e := Extension(filename);
    ExtensionLower(filename);
    assert ToLower(ToLower(e)) == ToLower(e) by {
      ToLowerIdempotent(e);
    }
  }

  /** The Kelvin sign lowers to `k`, so `a.\U{212A}t` is a Kotlin file. */
  lemma KelvinSignExtension()
    ensures DetectLanguage("a.\U{212A}t") == "kotlin"
  {
    var parts := ["a", "\U{212A}t"];
    SplitJoin(parts, '.');
    assert Join(parts, '.') == "a.\U{212A}t";
    assert ToLower("\U{212A}t") == "kt";
  }

  /** Every key of the table is written in ASCII. */
  lemma TableKeysAscii()
    ensures forall k :: k in LanguageTable ==> IsAscii(k)
  {
  }

  /**
   * Only ASCII characters and the Kelvin sign can lower to a key of the
   * table, so the other case mappings of `toLowerCase` never change which
   * language is detected.
   */
  lemma KeyCharactersLowerToAscii(e: string)
    requires ToLower(e) in LanguageTable
    ensures forall i :: 0 <= i < |e| ==> (e[i] as int) < 128 || e[i] == '\U{212A}'
  {
    TableKeysAscii();
    LowerAsciiFrom(e);
  }

  // ---------------------------------------------------------------------------
  // The table lookup as written: an inherited member of Object.prototype
  // ---------------------------------------------------------------------------

  /** What `languageMap[ext] ?? 'plaintext'` can evaluate to: a string, or a value inherited from Object.prototype. */
  datatype LookupValue = Tag(name: string) | InheritedMember(member: string)

  /** The property names every plain object inherits from Object.prototype. */
  const ObjectPrototypeMembers: set<string> := {
    "constructor", "hasOwnProperty", "isPrototypeOf", "propertyIsEnumerable",
    "toLocaleString", "toString", "valueOf", "__proto__",
    "__defineGetter__", "__defineSetter__", "__lookupGetter__", "__lookupSetter__"
  }

  /** `detectLanguage` as written: a plain-object lookup also finds the inherited members, which are not nullish. */
  function DetectLanguageAsWritten(filename: string): (r: LookupValue)
    ensures r.Tag? ==> r.name == DetectLanguage(filename)
  {
    var ext := ToLower(Extension(filename));
    if ext in LanguageTable then Tag(LanguageTable[ext])
    else if ext in ObjectPrototypeMembers then InheritedMember(ext)
    else Tag("plaintext")
  }

  /** No key of the table is longer than eight characters. */
  lemma TableKeysShort()
    ensures forall k :: k in LanguageTable ==> |k| <= 8
  {
  }

  lemma ConstructorExtension()
    ensures Extension("a.constructor") == "constructor"
  {
    var parts := ["a", "constructor"];
    SplitJoin(parts, '.');
    assert Join(parts, '.') == "a.constructor";
  }

  lemma ConstructorLower()
    ensures ToLower("constructor") == "constructor"
  {
    ToLowerNoCapitals("constructor");
  }

  /** `a.constructor` makes the lookup return Object's constructor function instead of a language name. */
  lemma DetectLanguageAsWrittenReturnsConstructor()
    ensures DetectLanguageAsWritten("a.constructor") == InheritedMember("constructor")
    ensures DetectLanguage("a.constructor") == "plaintext"
  {
    ConstructorExtension();
    ConstructorLower();
    TableKeysShort();
  }
}
