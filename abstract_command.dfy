/**
 * Building the migrations array from migration file paths: the bootstrap
 * shared by every command.
 */
module AbstractCommand {
  import opened Wrappers
  import opened Versions

  /** The exceptions the bootstrap throws while validating migration files. */
  datatype BuildError =
    | InvalidFilename(path: string)
    | DuplicateVersion(path: string, existing: string)
    | InvalidClassName(className: string)
    | DuplicateName(path: string, existing: string)
    | ClassNotFound(className: string, path: string)
    | NotAMigration(className: string, path: string)

  /**
   * What loading a migration file yields for its class name: the class is
   * defined and extends the migration base class, is not defined at all, or
   * is defined but is no migration.
   */
  datatype ClassLookup = Defined | Undefined | NotAMigrationClass

  // ---------------------------------------------------------------------
  // Paths and basenames

  /** The path without its trailing separators. */
  function TrimTrailingSlashes(s: string): string
    decreases |s|
  {
    if s != [] && s[|s| - 1] == '/' then TrimTrailingSlashes(s[..|s| - 1]) else s
  }

  /** Trimming keeps a prefix, drops only separators, and leaves no separator at the end. */
  lemma {:induction false} TrimTrailingSlashesShape(s: string)
    ensures TrimTrailingSlashes(s) <= s
    ensures TrimTrailingSlashes(s) == [] || TrimTrailingSlashes(s)[|TrimTrailingSlashes(s)| - 1] != '/'
    ensures forall i :: |TrimTrailingSlashes(s)| <= i < |s| ==> s[i] == '/'
    decreases |s|
  {
    if s != [] && s[|s| - 1] == '/' {
      var init := s[..|s| - 1];
      TrimTrailingSlashesShape(init);
      var r := TrimTrailingSlashes(init);
      assert r == s[..|r|] by {
        assert r == init[..|r|];
      }
    }
  }

  /** The part of a path after its last separator. */
  function AfterLastSlash(s: string): string
    decreases |s|
  {
    if s == [] || s[|s| - 1] == '/' then []
    else AfterLastSlash(s[..|s| - 1]) + [s[|s| - 1]]
  }

  /** What follows the last separator: a suffix without separators, preceded by one unless it is all of `s`. */
  lemma {:induction false} AfterLastSlashShape(s: string)
    ensures |AfterLastSlash(s)| <= |s| && s == s[..|s| - |AfterLastSlash(s)|] + AfterLastSlash(s)
    ensures '/' !in AfterLastSlash(s)
    ensures |AfterLastSlash(s)| < |s| ==> s[|s| - |AfterLastSlash(s)| - 1] == '/'
    decreases |s|
  {
    if s != [] && s[|s| - 1] != '/' {
      var init, c := s[..|s| - 1], s[|s| - 1];
      AfterLastSlashShape(init);
      var r := AfterLastSlash(init);
      var k := |init| - |r|;
      SnocSplit(s, k);
      assert init[k..] == r by {
        assert init == init[..k] + init[k..];
      }
      if k > 0 {
        assert s[k - 1] == init[k - 1];
      }
    }
  }

  /** Splitting a non-empty string before its last character, at an earlier cut `k`. */
  lemma SnocSplit(s: string, k: nat)
    requires k < |s|
    ensures s == s[..k] + (s[..|s| - 1][k..] + [s[|s| - 1]])
  {
    assert s[..|s| - 1][k..] + [s[|s| - 1]] == s[k..];
  }

  lemma {:induction false} AfterLastSlashOf(front: string, file: string)
    requires '/' !in file
    requires front != [] && front[|front| - 1] == '/'
    ensures AfterLastSlash(front + file) == file
    decreases |file|
  {
    if file == [] {
      assert front + file == front;
    } else {
      var init := file[..|file| - 1];
      assert (front + file)[..|front + file| - 1] == front + init;
      AfterLastSlashOf(front, init);
      assert init + [file[|file| - 1]] == file;
    }
  }

  /** PHP's `basename` on POSIX, where `/` is the only separator: the last component of a path, trailing separators ignored. */
  function Basename(path: string): string {
    AfterLastSlash(TrimTrailingSlashes(path))
  }

  lemma BasenameHasNoSeparator(path: string)
    ensures '/' !in Basename(path)
  {
    AfterLastSlashShape(TrimTrailingSlashes(path));
  }

  lemma BasenameOfFile(dir: string, file: string)
    requires file != [] && '/' !in file
    ensures Basename(dir + "/" + file) == file
  {
    var p := dir + "/" + file;
    assert TrimTrailingSlashes(p) == p;
    AfterLastSlashOf(dir + "/", file);
  }

  // ---------------------------------------------------------------------
  // Versions: the leading digit run of the basename

  predicate IsDigit(c: char) {
    '0' <= c <= '9'
  }

  predicate AllDigits(s: string) {
    forall i :: 0 <= i < |s| ==> IsDigit(s[i])
  }

  /** The maximal leading digit run: what `preg_match('/^[0-9]+/')` captures. */
  function LeadingDigits(s: string): (r: string)
    ensures AllDigits(r)
    decreases |s|
  {
    if s != [] && IsDigit(s[0]) then [s[0]] + LeadingDigits(s[1..]) else []
  }

  /** The digit run is a prefix of `s` that stops at a non-digit or at the end. */
  lemma {:induction false} LeadingDigitsShape(s: string)
    ensures LeadingDigits(s) <= s
    ensures |LeadingDigits(s)| < |s| ==> !IsDigit(s[|LeadingDigits(s)|])
    decreases |s|
  {
    if s != [] && IsDigit(s[0]) {
      var r := LeadingDigits(s[1..]);
      LeadingDigitsShape(s[1..]);
      assert s == [s[0]] + s[1..];
      if |r| < |s[1..]| {
        assert s[|r| + 1] == s[1..][|r|];
      }
    }
  }

  lemma LeadingDigitsOf(digits: string, rest: string)
    requires AllDigits(digits)
    requires rest == [] || !IsDigit(rest[0])
    ensures LeadingDigits(digits + rest) == digits
  {
    var s := digits + rest;
    LeadingDigitsShape(s);
    assert forall k :: 0 <= k < |digits| ==> s[k] == digits[k];
    assert |rest| > 0 ==> s[|digits|] == rest[0];
  }

  /** The value of a decimal numeral. */
  function DigitsValue(digits: string): nat
    requires AllDigits(digits)
    decreases |digits|
  {
    if digits == [] then 0
    else DigitsValue(digits[..|digits| - 1]) * 10 + (digits[|digits| - 1] as int - '0' as int)
  }

  /** Leading zeros do not change a version. */
  lemma {:induction false} DigitsValueLeadingZero(digits: string)
    requires AllDigits(digits)
    ensures DigitsValue("0" + digits) == DigitsValue(digits)
    decreases |digits|
  {
    if digits != [] {
      var init := digits[..|digits| - 1];
      assert ("0" + digits)[..|digits|] == "0" + init;
      DigitsValueLeadingZero(init);
    }
  }

  predicate HasVersion(path: string) {
    LeadingDigits(Basename(path)) != []
  }

  function VersionOf(path: string): Version {
    DigitsValue(LeadingDigits(Basename(path)))
  }

  // ---------------------------------------------------------------------
  // Migration names

  /** `preg_replace('/^[0-9]+_/', '', $base)`. */
  function StripVersionPrefix(base: string): string {
    var digits := LeadingDigits(base);
    if 0 < |digits| < |base| && base[|digits|] == '_' then base[|digits| + 1..] else base
  }

  /** A basename that starts with digits and an underscore loses exactly that prefix. */
  lemma StripVersionPrefixOf(digits: string, rest: string)
    requires digits != [] && AllDigits(digits)
    ensures StripVersionPrefix(digits + "_" + rest) == rest
  {
    var base := digits + "_" + rest;
    assert base == digits + ("_" + rest);
    LeadingDigitsOf(digits, "_" + rest);
    assert base[|digits| + 1..] == rest;
  }

  /** A basename with no prefix of digits followed by an underscore is left as it is. */
  lemma StripVersionPrefixUnmatched(base: string)
    requires forall k :: 0 < k < |base| && AllDigits(base[..k]) ==> base[k] != '_'
    ensures StripVersionPrefix(base) == base
  {
    var digits := LeadingDigits(base);
    LeadingDigitsShape(base);
    if 0 < |digits| < |base| {
      assert base[..|digits|] == digits;
    }
  }

  /** The text before the first `c`, or all of `s` when it holds none. */
  function BeforeFirst(s: string, c: char): string
    decreases |s|
  {
    if s == [] || s[0] == c then [] else [s[0]] + BeforeFirst(s[1..], c)
  }

  /** The text before the first `c` is a prefix without `c`, followed by `c` unless it is all of `s`. */
  lemma {:induction false} BeforeFirstShape(s: string, c: char)
    ensures BeforeFirst(s, c) <= s && c !in BeforeFirst(s, c)
    ensures |BeforeFirst(s, c)| < |s| ==> s[|BeforeFirst(s, c)|] == c
    decreases |s|
  {
    if s != [] && s[0] != c {
      var r := BeforeFirst(s[1..], c);
      BeforeFirstShape(s[1..], c);
      assert s == [s[0]] + s[1..];
      if |r| < |s[1..]| {
        assert s[|r| + 1] == s[1..][|r|];
      }
    }
  }

  lemma BeforeFirstOf(a: string, c: char, b: string)
    requires c !in a
    ensures BeforeFirst(a + [c] + b, c) == a
  {
    var s := a + [c] + b;
    BeforeFirstShape(s, c);
    assert forall k :: 0 <= k < |a| ==> s[k] == a[k];
    assert s[|a|] == c;
  }

  /** The migration name: the basename without `digits_`, cut before its first dot. */
  function MigrationName(base: string): string {
    BeforeFirst(StripVersionPrefix(base), '.')
  }

  lemma {:induction false} MigrationFileParts(path: string, digits: string, name: string, extension: string)
    requires digits != [] && AllDigits(digits)
    requires '.' !in name
    requires Basename(path) == digits + "_" + name + "." + extension
    ensures HasVersion(path) && VersionOf(path) == DigitsValue(digits)
    ensures MigrationName(Basename(path)) == name
  {
    var base := Basename(path);
    var tail := name + "." + extension;
    assert base == digits + ("_" + tail);
    LeadingDigitsOf(digits, "_" + tail);
    assert base[|digits|] == '_';
    assert base[|digits| + 1..] == tail;
    assert StripVersionPrefix(base) == tail;
    BeforeFirstOf(name, '.', extension);
  }

  // ---------------------------------------------------------------------
  // Class names: `migrationToClassName` and `isValidClassName`

  /** The word delimiters of PHP's `ucwords`: space, tab, CR, LF, form feed and vertical tab. */
  predicate IsWordDelimiter(c: char) {
    c == ' ' || c == '\t' || c == '\r' || c == '\n' || c == '\U{000C}' || c == '\U{000B}'
  }

  /** The upper-casing `ucwords` applies: a lower-case ASCII letter becomes its own capital. */
  function ToUpperAscii(c: char): (u: char)
    ensures 'a' <= c <= 'z' ==> 'A' <= u <= 'Z' && u as int - 'A' as int == c as int - 'a' as int
    ensures !('a' <= c <= 'z') ==> u == c
  {
    if 'a' <= c <= 'z' then (c as int - 32) as char else c
  }

  /** `str_replace($from, $to, $s)` for single characters. */
  function ReplaceChar(s: string, from: char, to: char): (r: string)
    ensures |r| == |s|
    decreases |s|
  {
    if s == [] then [] else [if s[0] == from then to else s[0]] + ReplaceChar(s[1..], from, to)
  }

  /** Every `from` becomes `to`; every other character stays. */
  lemma {:induction false} ReplaceCharShape(s: string, from: char, to: char)
    ensures forall i {:trigger ReplaceChar(s, from, to)[i]} :: 0 <= i < |s| ==>
      ReplaceChar(s, from, to)[i] == if s[i] == from then to else s[i]
    decreases |s|
  {
    if s != [] {
      ReplaceCharShape(s[1..], from, to);
      forall i | 1 <= i < |s| ensures ReplaceChar(s, from, to)[i] == if s[i] == from then to else s[i] {
        assert ReplaceChar(s, from, to)[i] == ReplaceChar(s[1..], from, to)[i - 1];
        assert s[1..][i - 1] == s[i];
      }
    }
  }

  /** `str_replace($c, '', $s)` for a single character. */
  function RemoveChar(s: string, c: char): string
    decreases |s|
  {
    if s == [] then []
    else if s[0] == c then RemoveChar(s[1..], c)
    else [s[0]] + RemoveChar(s[1..], c)
  }

  /** No `c` is left, and a text without `c` is returned unchanged. */
  lemma {:induction false} RemoveCharShape(s: string, c: char)
    ensures c !in RemoveChar(s, c)
    ensures c !in s ==> RemoveChar(s, c) == s
    decreases |s|
  {
    if s != [] {
      RemoveCharShape(s[1..], c);
      assert s == [s[0]] + s[1..];
    }
  }

  lemma {:induction false} RemoveCharConcat(a: string, b: string, c: char)
    ensures RemoveChar(a + b, c) == RemoveChar(a, c) + RemoveChar(b, c)
    decreases |a|
  {
    if a == [] {
      assert a + b == b;
    } else {
      assert (a + b)[0] == a[0];
      assert (a + b)[1..] == a[1..] + b;
      RemoveCharConcat(a[1..], b, c);
    }
  }

  lemma {:induction false} RemoveCharKeepsAbsent(s: string, c: char, d: char)
    requires d !in s
    ensures d !in RemoveChar(s, c)
    decreases |s|
  {
    if s != [] {
      assert s[1..] == s[1..] && forall k :: 0 <= k < |s[1..]| ==> s[1..][k] == s[k + 1];
      RemoveCharKeepsAbsent(s[1..], c, d);
    }
  }

  /** `ucwords` scanning `s`, where `atStart` says whether the previous character ended a word. */
  function UcWordsFrom(s: string, atStart: bool): (r: string)
    ensures |r| == |s|
    decreases |s|
  {
    if s == [] then []
    else [if atStart then ToUpperAscii(s[0]) else s[0]] + UcWordsFrom(s[1..], IsWordDelimiter(s[0]))
  }

  lemma {:induction false} UcWordsFromShape(s: string, atStart: bool)
    ensures forall i {:trigger UcWordsFrom(s, atStart)[i]} :: 0 <= i < |s| ==>
      UcWordsFrom(s, atStart)[i] ==
        if (if i == 0 then atStart else IsWordDelimiter(s[i - 1])) then ToUpperAscii(s[i]) else s[i]
    decreases |s|
  {
    if s != [] {
      var rest := s[1..];
      UcWordsFromShape(rest, IsWordDelimiter(s[0]));
      forall i | 1 <= i < |s|
        ensures UcWordsFrom(s, atStart)[i] == if IsWordDelimiter(s[i - 1]) then ToUpperAscii(s[i]) else s[i]
      {
        assert UcWordsFrom(s, atStart)[i] == UcWordsFrom(rest, IsWordDelimiter(s[0]))[i - 1];
        assert rest[i - 1] == s[i];
        if i > 1 {
          assert rest[i - 2] == s[i - 1];
        }
      }
    }
  }

  /** PHP's `ucwords`. */
  function UcWords(s: string): (r: string)
    ensures |r| == |s|
  {
    UcWordsFrom(s, true)
  }

  /** `ucwords` upper-cases the first letter and every letter that follows a delimiter, and nothing else. */
  lemma UcWordsShape(s: string)
    ensures forall i {:trigger UcWords(s)[i]} :: 0 <= i < |s| ==>
      UcWords(s)[i] == if i == 0 || IsWordDelimiter(s[i - 1]) then ToUpperAscii(s[i]) else s[i]
  {
    UcWordsFromShape(s, true);
  }

  /** `ucwords` introduces no character other than upper-case letters. */
  lemma UcWordsKeepsAbsent(s: string, c: char)
    requires c !in s && !('A' <= c <= 'Z')
    ensures c !in UcWords(s)
  {
    var upper := UcWords(s);
    UcWordsShape(s);
    forall i | 0 <= i < |upper| ensures upper[i] != c {
      assert s[i] != c;
    }
  }

  /** `migrationToClassName` without its validity check: `create_table_user` to `CreateTableUser`. */
  function ClassNameOf(migrationName: string): string {
    RemoveChar(UcWords(ReplaceChar(migrationName, '_', ' ')), ' ')
  }

  /** A derived class name holds neither underscores nor spaces. */
  lemma ClassNameHasNoSeparators(migrationName: string)
    ensures '_' !in ClassNameOf(migrationName) && ' ' !in ClassNameOf(migrationName)
  {
    var spaced := ReplaceChar(migrationName, '_', ' ');
    ReplaceCharShape(migrationName, '_', ' ');
    assert '_' !in spaced;
    UcWordsKeepsAbsent(spaced, '_');
    RemoveCharKeepsAbsent(UcWords(spaced), ' ', '_');
    RemoveCharShape(UcWords(spaced), ' ');
  }

  /** The first character upper-cased, the rest unchanged. */
  function Capitalize(w: string): string {
    if w == [] then [] else [ToUpperAscii(w[0])] + w[1..]
  }

  /** A word of a migration name: it holds no underscore and no `ucwords` delimiter. */
  predicate IsPlainWord(w: string) {
    forall i :: 0 <= i < |w| ==> w[i] != '_' && !IsWordDelimiter(w[i])
  }

  lemma CapitalizedWordHasNoSpace(w: string)
    requires IsPlainWord(w)
    ensures ' ' !in Capitalize(w)
  {
    forall i | 0 <= i < |Capitalize(w)| ensures Capitalize(w)[i] != ' ' {
      assert w[i] != ' ';
    }
  }

  lemma PlainWordClassName(w: string)
    requires IsPlainWord(w)
    ensures ClassNameOf(w) == Capitalize(w)
  {
    var spaced := ReplaceChar(w, '_', ' ');
    ReplaceCharShape(w, '_', ' ');
    assert spaced == w;
    var upper := UcWords(w);
    UcWordsShape(w);
    assert upper == Capitalize(w) by {
      forall i | 0 <= i < |upper| ensures upper[i] == Capitalize(w)[i] {
        if i > 0 {
          assert !IsWordDelimiter(w[i - 1]);
        }
      }
    }
    CapitalizedWordHasNoSpace(w);
    RemoveCharShape(upper, ' ');
  }

  lemma PlainWordThenRest(w: string, rest: string)
    requires IsPlainWord(w)
    ensures ClassNameOf(w + "_" + rest) == Capitalize(w) + ClassNameOf(rest)
  {
    var cap := Capitalize(w);
    var spacedRest := ReplaceChar(rest, '_', ' ');
    var upperRest := UcWords(spacedRest);
    ReplaceWordThenRest(w, rest);
    UcWordsWordThenRest(w, spacedRest);
    assert UcWords(ReplaceChar(w + "_" + rest, '_', ' ')) == cap + (" " + upperRest);
    CapitalizedWordHasNoSpace(w);
    RemoveCharShape(cap, ' ');
    RemoveCharConcat(cap, " " + upperRest, ' ');
    RemoveCharConcat(" ", upperRest, ' ');
    assert RemoveChar(" ", ' ') == [];
    assert RemoveChar(" " + upperRest, ' ') == RemoveChar(upperRest, ' ');
  }

  lemma ReplaceWordThenRest(w: string, rest: string)
    requires IsPlainWord(w)
    ensures ReplaceChar(w + "_" + rest, '_', ' ') == w + " " + ReplaceChar(rest, '_', ' ')
  {
    var s := w + "_" + rest;
    var r := ReplaceChar(s, '_', ' ');
    var t := w + " " + ReplaceChar(rest, '_', ' ');
    ReplaceCharShape(s, '_', ' ');
    ReplaceCharShape(rest, '_', ' ');
    forall i | 0 <= i < |r| ensures r[i] == t[i] {
      if i > |w| {
        assert s[i] == rest[i - |w| - 1];
      }
    }
  }

  lemma UcWordsWordThenRest(w: string, rest: string)
    requires IsPlainWord(w)
    ensures UcWords(w + " " + rest) == Capitalize(w) + " " + UcWords(rest)
  {
    var s := w + " " + rest;
    var upper := UcWords(s);
    var upperRest := UcWords(rest);
    var t := Capitalize(w) + " " + upperRest;
    UcWordsShape(s);
    UcWordsShape(rest);
    assert |upper| == |t|;
    forall i | 0 <= i < |upper| ensures upper[i] == t[i] {
      if i < |w| {
        if i > 0 {
          assert s[i - 1] == w[i - 1];
        }
      } else if i > |w| {
        var j := i - |w| - 1;
        assert s[i] == rest[j];
        if j > 0 {
          assert s[i - 1] == rest[j - 1];
        }
      }
    }
  }

  /** The words of a migration name joined by underscores. */
  function JoinWords(words: seq<string>): string
    requires words != []
    decreases |words|
  {
    if |words| == 1 then words[0] else words[0] + "_" + JoinWords(words[1..])
  }

  /** The words capitalized and concatenated. */
  function PascalCase(words: seq<string>): string
    decreases |words|
  {
    if words == [] then [] else Capitalize(words[0]) + PascalCase(words[1..])
  }

  /** Snake case becomes Pascal case: each word capitalized, the underscores dropped. */
  lemma {:induction false} ClassNameOfWords(words: seq<string>)
    requires words != []
    requires forall k :: 0 <= k < |words| ==> IsPlainWord(words[k])
    ensures ClassNameOf(JoinWords(words)) == PascalCase(words)
    decreases |words|
  {
    if |words| == 1 {
      PlainWordClassName(words[0]);
      assert PascalCase(words[1..]) == [];
    } else {
      PlainWordThenRest(words[0], JoinWords(words[1..]));
      ClassNameOfWords(words[1..]);
    }
  }

  lemma CreateTableUserExample()
    ensures ClassNameOf("create_table_user") == "CreateTableUser"
  {
    var words := ["create", "table", "user"];
    assert JoinWords(words) == "create_table_user";
    ClassNameOfWords(words);
    PascalCaseExample();
  }

  lemma PascalCaseExample()
    ensures PascalCase(["create", "table", "user"]) == "CreateTableUser"
  {
    assert PascalCase(["user"]) == "User";
    assert PascalCase(["table", "user"]) == "TableUser";
  }

  predicate IsIdentifierStart(c: char) {
    'a' <= c <= 'z' || 'A' <= c <= 'Z' || c == '_' || c as int >= 0x7f
  }

  predicate IsIdentifierPart(c: char) {
    IsIdentifierStart(c) || IsDigit(c)
  }

  /**
   * A PHP class name: `[a-zA-Z_\x7f-\xff][a-zA-Z0-9_\x7f-\xff]*`, matched
   * against the whole string. A character at or above 0x7f stands for its
   * UTF-8 bytes, which all lie in 0x7f-0xff.
   */
  predicate IsValidClassName(s: string) {
    |s| > 0 && IsIdentifierStart(s[0]) && forall i :: 1 <= i < |s| ==> IsIdentifierPart(s[i])
  }

  /**
   * The check as `isValidClassName` writes it: without the `D` modifier the
   * pattern's `$` also matches just before a final line feed.
   */
  predicate IsValidClassNameAsWritten(s: string) {
    IsValidClassName(s) || (|s| > 1 && s[|s| - 1] == '\n' && IsValidClassName(s[..|s| - 1]))
  }

  /** A migration named `foo` followed by a line feed gets a class name ending in a line feed, and the check as written lets it through. */
  lemma TrailingLineFeedAccepted()
    ensures ClassNameOf("foo\n") == "Foo\n"
    ensures IsValidClassNameAsWritten("Foo\n")
    ensures !IsValidClassName("Foo\n")
  {
    LineFeedClassName();
    assert "Foo\n"[..3] == "Foo";
    assert !IsIdentifierPart("Foo\n"[3]);
  }

  lemma LineFeedClassName()
    ensures ClassNameOf("foo\n") == "Foo\n"
  {
    ReplaceCharShape("foo\n", '_', ' ');
    assert ReplaceChar("foo\n", '_', ' ') == "foo\n";
    UcWordsShape("foo\n");
    assert UcWords("foo\n") == "Foo\n";
    RemoveCharShape("Foo\n", ' ');
  }

  /** A valid class name starts with no digit and holds no white space. */
  lemma ValidClassNameShape(s: string)
    requires IsValidClassName(s)
    ensures !IsDigit(s[0])
    ensures forall i :: 0 <= i < |s| ==> !IsWordDelimiter(s[i])
    ensures IsValidClassNameAsWritten(s)
  {
  }

  /** `migrationToClassName`: the derived class name, or the error for an invalid one. */
  function MigrationToClassName(migrationName: string): (r: Result<string, BuildError>)
    ensures r.Ok? ==> IsValidClassName(r.value) && r.value == ClassNameOf(migrationName)
    ensures r.Err? ==> r.error == InvalidClassName(ClassNameOf(migrationName)) && !IsValidClassName(ClassNameOf(migrationName))
  {
    var className := ClassNameOf(migrationName);
    if IsValidClassName(className) then Ok(className) else Err(InvalidClassName(className))
  }

  // ---------------------------------------------------------------------
  // Building the catalog

  /** PHP's `array_unique`: the first occurrence of every path, in order. */
  function Dedup(paths: seq<string>): (r: seq<string>)
    ensures forall p :: p in r <==> p in paths
    decreases |paths|
  {
    if paths == [] then []
    else
      var init := Dedup(paths[..|paths| - 1]);
      var last := paths[|paths| - 1];
      assert paths == paths[..|paths| - 1] + [last];
      if last in init then init else init + [last]
  }

  /** `array_unique` keeps no path twice. */
  lemma {:induction false} DedupDistinct(paths: seq<string>)
    ensures forall i, j :: 0 <= i < j < |Dedup(paths)| ==> Dedup(paths)[i] != Dedup(paths)[j]
    decreases |paths|
  {
    if paths != [] {
      DedupDistinct(paths[..|paths| - 1]);
    }
  }

  function ClassOf(path: string): string {
    ClassNameOf(MigrationName(Basename(path)))
  }

  function MigrationOf(path: string): Migration {
    Migration(VersionOf(path), ClassOf(path))
  }

  /** What the bootstrap reads off one migration file's path. */
  datatype MigrationFile = MigrationFile(path: string, hasVersion: bool, version: Version, className: string)

  function Inspect(path: string): MigrationFile {
    MigrationFile(path, HasVersion(path), VersionOf(path), ClassOf(path))
  }

  /** The files of a path list, in order. */
  function Files(paths: seq<string>): (r: seq<MigrationFile>)
    ensures |r| == |paths|
    ensures forall j :: 0 <= j < |paths| ==> r[j].path == paths[j]
    decreases |paths|
  {
    if paths == [] then [] else Files(paths[..|paths| - 1]) + [Inspect(paths[|paths| - 1])]
  }

  lemma {:induction false} FilesAt(paths: seq<string>, j: nat)
    requires j < |paths|
    ensures Files(paths)[j] == Inspect(paths[j])
    decreases |paths|
  {
    if j < |paths| - 1 {
      assert paths[..|paths| - 1][j] == paths[j];
      FilesAt(paths[..|paths| - 1], j);
    }
  }

  /** The file of a listed path. */
  lemma FileOf(paths: seq<string>, p: string) returns (j: nat)
    requires p in paths
    ensures j < |paths| && paths[j] == p && Files(paths)[j] == Inspect(p)
  {
    j :| 0 <= j < |paths| && paths[j] == p;
    FilesAt(paths, j);
  }

  /** The same path gives the same file, whichever list it is read from. */
  lemma SameFile(s: seq<string>, j: nat, t: seq<string>, k: nat)
    requires j < |s| && k < |t| && s[j] == t[k]
    ensures Files(s)[j] == Files(t)[k]
  {
    FilesAt(s, j);
    FilesAt(t, k);
  }

  /** Every file of a sub-list of `paths` is a file of `paths`. */
  lemma FilesWithin(visited: seq<string>, paths: seq<string>)
    requires forall j :: 0 <= j < |visited| ==> visited[j] in paths
    ensures forall j :: 0 <= j < |visited| ==> Files(visited)[j] in Files(paths)
  {
    forall j | 0 <= j < |visited| ensures Files(visited)[j] in Files(paths) {
      var k :| 0 <= k < |paths| && paths[k] == visited[j];
      SameFile(visited, j, paths, k);
    }
  }

  /** One file the bootstrap accepts: a versioned name, a valid class name, a loadable migration class. */
  predicate Accepted(f: MigrationFile, lookup: (string, string) -> ClassLookup) {
    f.hasVersion && IsValidClassName(f.className) && lookup(f.path, f.className) == Defined
  }

  /** All files accepted, and distinct files differ both in version and in class name. */
  predicate Acceptable(paths: seq<string>, lookup: (string, string) -> ClassLookup) {
    AllAccepted(Files(paths), lookup) && Consistent(Files(paths))
  }

  /** Every file passes the checks made on it alone. */
  predicate AllAccepted(files: seq<MigrationFile>, lookup: (string, string) -> ClassLookup) {
    forall j :: 0 <= j < |files| ==> Accepted(files[j], lookup)
  }

  /** Files at different paths differ in version and in class name. */
  predicate Consistent(files: seq<MigrationFile>) {
    forall j, k :: 0 <= j < |files| && 0 <= k < |files| && files[j].path != files[k].path ==>
      files[j].version != files[k].version && files[j].className != files[k].className
  }

  /** What each exception says about the files. */
  ghost predicate Explains(e: BuildError, paths: seq<string>, lookup: (string, string) -> ClassLookup) {
    var files := Files(paths);
    match e
    case InvalidFilename(p) => exists j :: 0 <= j < |files| && files[j].path == p && !files[j].hasVersion
    case DuplicateVersion(p, existing) =>
      exists j, k :: 0 <= j < |files| && 0 <= k < |files| && files[j].path == p && files[k].path != p &&
        files[j].hasVersion && files[k].hasVersion && files[k].version == files[j].version && files[k].className == existing
    case InvalidClassName(c) =>
      !IsValidClassName(c) && exists j :: 0 <= j < |files| && files[j].hasVersion && files[j].className == c
    case DuplicateName(p, q) =>
      exists j, k :: 0 <= j < |files| && 0 <= k < |files| && files[j].path == p && files[k].path == q &&
        p != q && files[j].className == files[k].className
    case ClassNotFound(c, p) =>
      exists j :: 0 <= j < |files| && files[j].path == p && files[j].className == c && lookup(p, c) == Undefined
    case NotAMigration(c, p) =>
      exists j :: 0 <= j < |files| && files[j].path == p && files[j].className == c && lookup(p, c) == NotAMigrationClass
  }

  /**
   * An array built by visiting the files of `s` in order and storing
   * `value(f)` under `key(f)`: `$versions` and `$names` of the loop.
   */
  function KeyedBy<K(==), V>(s: seq<MigrationFile>, key: MigrationFile -> K, value: MigrationFile -> V): map<K, V>
    decreases |s|
  {
    if s == [] then map[]
    else KeyedBy(s[..|s| - 1], key, value)[key(s[|s| - 1]) := value(s[|s| - 1])]
  }

  predicate DistinctKeys<K(==)>(s: seq<MigrationFile>, key: MigrationFile -> K) {
    forall j, k :: 0 <= j < k < |s| ==> key(s[j]) != key(s[k])
  }

  /** A stored key comes from some visited file, whose value it holds. */
  lemma {:induction false} KeyWitness<K, V>(s: seq<MigrationFile>, key: MigrationFile -> K, value: MigrationFile -> V, x: K)
    returns (j: nat)
    requires x in KeyedBy(s, key, value)
    ensures j < |s| && key(s[j]) == x && KeyedBy(s, key, value)[x] == value(s[j])
    decreases |s|
  {
    if key(s[|s| - 1]) == x {
      j := |s| - 1;
    } else {
      j := KeyWitness(s[..|s| - 1], key, value, x);
      assert s[..|s| - 1][j] == s[j];
    }
  }

  /** Every visited file's key is stored. */
  lemma {:induction false} KeyStored<K, V>(s: seq<MigrationFile>, key: MigrationFile -> K, value: MigrationFile -> V, j: nat)
    requires j < |s|
    ensures key(s[j]) in KeyedBy(s, key, value)
    decreases |s|
  {
    if j < |s| - 1 {
      assert s[..|s| - 1][j] == s[j];
      KeyStored(s[..|s| - 1], key, value, j);
    }
  }

  /** With distinct keys, every visited file's value sits under its key. */
  lemma {:induction false} KeyedByAt<K, V>(s: seq<MigrationFile>, key: MigrationFile -> K, value: MigrationFile -> V, j: nat)
    requires j < |s| && DistinctKeys(s, key)
    ensures key(s[j]) in KeyedBy(s, key, value)
    ensures KeyedBy(s, key, value)[key(s[j])] == value(s[j])
    decreases |s|
  {
    if j < |s| - 1 {
      var init := s[..|s| - 1];
      assert init[j] == s[j];
      assert DistinctKeys(init, key) by {
        forall a, b | 0 <= a < b < |init| ensures key(init[a]) != key(init[b]) {
          assert init[a] == s[a] && init[b] == s[b];
        }
      }
      KeyedByAt(init, key, value, j);
    }
  }

  /** Visiting one more file whose key is fresh keeps the keys distinct. */
  lemma KeyedByStep<K, V>(visited: seq<MigrationFile>, key: MigrationFile -> K, value: MigrationFile -> V, f: MigrationFile)
    requires DistinctKeys(visited, key)
    requires key(f) !in KeyedBy(visited, key, value)
    ensures KeyedBy(visited + [f], key, value) == KeyedBy(visited, key, value)[key(f) := value(f)]
    ensures DistinctKeys(visited + [f], key)
  {
    var next := visited + [f];
    assert next[..|visited|] == visited;
    forall j | 0 <= j < |visited| ensures key(next[j]) != key(f) {
      assert next[j] == visited[j];
      KeyStored(visited, key, value, j);
    }
    forall j, k | 0 <= j < k < |next| ensures key(next[j]) != key(next[k]) {
      if k < |visited| {
        assert next[j] == visited[j] && next[k] == visited[k];
      }
    }
  }

  function FileVersion(f: MigrationFile): Version {
    f.version
  }

  function FileClass(f: MigrationFile): string {
    f.className
  }

  function FileMigration(f: MigrationFile): Migration {
    Migration(f.version, f.className)
  }

  function FilePath(f: MigrationFile): string {
    f.path
  }

  /** A listed file without a version: `InvalidFilename`. */
  lemma UnversionedFound(paths: seq<string>, p: string, lookup: (string, string) -> ClassLookup)
    requires p in paths && !HasVersion(p)
    ensures Explains(InvalidFilename(p), paths, lookup) && !Acceptable(paths, lookup)
  {
    var j := FileOf(paths, p);
  }

  /** A versioned file whose class name is not a valid PHP class name. */
  lemma InvalidClassNameFound(paths: seq<string>, p: string, lookup: (string, string) -> ClassLookup)
    requires p in paths && HasVersion(p) && !IsValidClassName(ClassOf(p))
    ensures Explains(InvalidClassName(ClassOf(p)), paths, lookup) && !Acceptable(paths, lookup)
  {
    var j := FileOf(paths, p);
  }

  /** A file whose class the loader does not find, or finds but not as a migration. */
  lemma NotLoadedFound(paths: seq<string>, p: string, lookup: (string, string) -> ClassLookup)
    requires p in paths && lookup(p, ClassOf(p)) != Defined
    ensures lookup(p, ClassOf(p)) == Undefined ==> Explains(ClassNotFound(ClassOf(p), p), paths, lookup)
    ensures lookup(p, ClassOf(p)) == NotAMigrationClass ==> Explains(NotAMigration(ClassOf(p), p), paths, lookup)
    ensures !Acceptable(paths, lookup)
  {
    var j := FileOf(paths, p);
  }

  /** A versioned file whose version an earlier file `g` already has. */
  lemma DuplicateVersionFound(paths: seq<string>, p: string, g: MigrationFile, lookup: (string, string) -> ClassLookup)
    requires p in paths && HasVersion(p)
    requires g in Files(paths) && g.path != p && g.hasVersion && g.version == VersionOf(p)
    ensures Explains(DuplicateVersion(p, g.className), paths, lookup)
    ensures !Acceptable(paths, lookup)
  {
    var j := FileOf(paths, p);
    var k :| 0 <= k < |Files(paths)| && Files(paths)[k] == g;
  }

  /** A file whose class name an earlier file `g` already has. */
  lemma DuplicateNameFound(paths: seq<string>, p: string, g: MigrationFile, lookup: (string, string) -> ClassLookup)
    requires p in paths && g in Files(paths) && g.path != p && g.className == ClassOf(p)
    ensures Explains(DuplicateName(p, g.path), paths, lookup)
    ensures !Acceptable(paths, lookup)
  {
    var j := FileOf(paths, p);
    var k :| 0 <= k < |Files(paths)| && Files(paths)[k] == g;
  }

  /** Files that passed every check one by one make the whole input acceptable. */
  lemma BuiltAcceptable(paths: seq<string>, unique: seq<string>, lookup: (string, string) -> ClassLookup)
    requires forall p :: p in unique <==> p in paths
    requires AllAccepted(Files(unique), lookup)
    requires DistinctKeys(Files(unique), FileVersion) && DistinctKeys(Files(unique), FileClass)
    ensures Acceptable(paths, lookup)
  {
    var files, all := Files(unique), Files(paths);
    forall j | 0 <= j < |all| ensures exists a :: 0 <= a < |files| && all[j] == files[a] {
      assert paths[j] in unique;
      var a := FileOf(unique, paths[j]);
      FilesAt(paths, j);
    }
    forall j, k | 0 <= j < |all| && 0 <= k < |all| && all[j].path != all[k].path
      ensures all[j].version != all[k].version && all[j].className != all[k].className
    {
      var a :| 0 <= a < |files| && all[j] == files[a];
      var b :| 0 <= b < |files| && all[k] == files[b];
      if a < b {
        assert FileVersion(files[a]) != FileVersion(files[b]) && FileClass(files[a]) != FileClass(files[b]);
      } else {
        assert FileVersion(files[b]) != FileVersion(files[a]) && FileClass(files[b]) != FileClass(files[a]);
      }
    }
  }

  /** The recorded `$versions` hold exactly one migration per version found, under that version. */
  lemma BuiltCatalog(paths: seq<string>, unique: seq<string>)
    requires forall p :: p in unique <==> p in paths
    requires DistinctKeys(Files(unique), FileVersion)
    ensures WellKeyed(KeyedBy(Files(unique), FileVersion, FileMigration))
    ensures forall v :: v in KeyedBy(Files(unique), FileVersion, FileMigration) <==> exists p :: p in paths && VersionOf(p) == v
    ensures forall p :: p in paths ==> KeyedBy(Files(unique), FileVersion, FileMigration)[VersionOf(p)] == MigrationOf(p)
  {
    var files := Files(unique);
    var versions := KeyedBy(files, FileVersion, FileMigration);
    forall p | p in paths ensures VersionOf(p) in versions && versions[VersionOf(p)] == MigrationOf(p) {
      var a := FileOf(unique, p);
      KeyedByAt(files, FileVersion, FileMigration, a);
    }
    forall v | v in versions ensures versions[v].version == v && exists p :: p in paths && VersionOf(p) == v {
      var a := KeyWitness(files, FileVersion, FileMigration, v);
      FilesAt(unique, a);
      assert unique[a] in paths;
    }
  }

  lemma AcceptedStep(files: seq<MigrationFile>, f: MigrationFile, lookup: (string, string) -> ClassLookup)
    requires AllAccepted(files, lookup)
    requires Accepted(f, lookup)
    ensures AllAccepted(files + [f], lookup)
  {
  }

  /**
   * One pass of the `foreach` in `bootstrapMigrations`: check the file at
   * `path` against the files visited before it and record it in `$versions`
   * and `$names`, or report the first exception the file raises.
   */
  method VisitFile(paths: seq<string>, visited: seq<string>, path: string,
                   versions: Catalog, names: map<string, string>, lookup: (string, string) -> ClassLookup)
    returns (r: Result<(Catalog, map<string, string>), BuildError>)
    requires path in paths && path !in visited
    requires forall j :: 0 <= j < |Files(visited)| ==> Files(visited)[j] in Files(paths)
    requires AllAccepted(Files(visited), lookup)
    requires DistinctKeys(Files(visited), FileVersion) && DistinctKeys(Files(visited), FileClass)
    requires versions == KeyedBy(Files(visited), FileVersion, FileMigration)
    requires names == KeyedBy(Files(visited), FileClass, FilePath)
    ensures r.Err? ==> Explains(r.error, paths, lookup) && !Acceptable(paths, lookup)
    ensures r.Ok? ==> AllAccepted(Files(visited + [path]), lookup)
    ensures r.Ok? ==> DistinctKeys(Files(visited + [path]), FileVersion) && DistinctKeys(Files(visited + [path]), FileClass)
    ensures r.Ok? ==> r.value.0 == KeyedBy(Files(visited + [path]), FileVersion, FileMigration)
    ensures r.Ok? ==> r.value.1 == KeyedBy(Files(visited + [path]), FileClass, FilePath)
  {
    var files := Files(visited);
    assert (visited + [path])[..|visited|] == visited;
    var base := Basename(path);
    var digits := LeadingDigits(base);
    if digits == [] {
      UnversionedFound(paths, path, lookup);
      return Err(InvalidFilename(path));
    }
    var version := DigitsValue(digits);
    if version in versions {
      var j := KeyWitness(files, FileVersion, FileMigration, version);
      DuplicateVersionFound(paths, path, files[j], lookup);
      return Err(DuplicateVersion(path, versions[version].name));
    }
    var named := MigrationToClassName(MigrationName(base));
    if named.Err? {
      InvalidClassNameFound(paths, path, lookup);
      return Err(named.error);
    }
    var className := named.value;
    if className in names {
      var j := KeyWitness(files, FileClass, FilePath, className);
      DuplicateNameFound(paths, path, files[j], lookup);
      return Err(DuplicateName(path, names[className]));
    }
    var found := lookup(path, className);
    if found != Defined {
      NotLoadedFound(paths, path, lookup);
    }
    if found == Undefined {
      return Err(ClassNotFound(className, path));
    }
    if found == NotAMigrationClass {
      return Err(NotAMigration(className, path));
    }
    assert Files(visited + [path]) == files + [Inspect(path)];
    assert Accepted(Inspect(path), lookup);
    AcceptedStep(files, Inspect(path), lookup);
    KeyedByStep(files, FileVersion, FileMigration, Inspect(path));
    KeyedByStep(files, FileClass, FilePath, Inspect(path));
    r := Ok((versions[version := Migration(version, className)], names[className := path]));
  }

  /** The files before position `i` of the de-duplicated list, as `VisitFile` needs them. */
  lemma PrefixStep(paths: seq<string>, unique: seq<string>, i: nat)
    requires unique == Dedup(paths) && i < |unique|
    ensures unique[..i + 1] == unique[..i] + [unique[i]]
    ensures unique[i] in paths && unique[i] !in unique[..i]
    ensures forall j :: 0 <= j < i ==> Files(unique[..i])[j] in Files(paths)
  {
    DedupDistinct(paths);
    forall j | 0 <= j < i ensures unique[..i][j] in paths {
      assert unique[..i][j] == unique[j];
    }
    FilesWithin(unique[..i], paths);
  }

  /**
   * `bootstrapMigrations` from the merged path list on: validate every file
   * and key its migration by version.
   */
  method BootstrapMigrations(paths: seq<string>, lookup: (string, string) -> ClassLookup)
    returns (r: Result<Catalog, BuildError>)
    ensures r.Ok? <==> Acceptable(paths, lookup)
    ensures r.Err? ==> Explains(r.error, paths, lookup)
    ensures r.Ok? ==> WellKeyed(r.value)
    ensures r.Ok? ==> forall v :: v in r.value <==> exists p :: p in paths && VersionOf(p) == v
    ensures r.Ok? ==> forall p :: p in paths ==> r.value[VersionOf(p)] == MigrationOf(p)
  {
    var unique := Dedup(paths);
    var versions: Catalog := map[];
    var names: map<string, string> := map[];
    var i := 0;
    while i < |unique|
      invariant 0 <= i <= |unique|
      invariant AllAccepted(Files(unique[..i]), lookup)
      invariant DistinctKeys(Files(unique[..i]), FileVersion) && DistinctKeys(Files(unique[..i]), FileClass)
      invariant versions == KeyedBy(Files(unique[..i]), FileVersion, FileMigration)
      invariant names == KeyedBy(Files(unique[..i]), FileClass, FilePath)
    {
      PrefixStep(paths, unique, i);
      var visit := VisitFile(paths, unique[..i], unique[i], versions, names, lookup);
      if visit.Err? {
        return Err(visit.error);
      }
      versions, names := visit.value.0, visit.value.1;
      i := i + 1;
    }
    // `ksort` has no counterpart on a map: `Versions.Ascending` lists the catalog by increasing version.
    assert unique[..i] == unique;
    BuiltAcceptable(paths, unique, lookup);
    BuiltCatalog(paths, unique);
    r := Ok(versions);
  }

  /** A file listed twice is collapsed first: the list is accepted exactly when the list without the repeat is. */
  lemma RepeatedPathCollapsed(paths: seq<string>, p: string, lookup: (string, string) -> ClassLookup)
    requires p in paths
    ensures Acceptable(paths + [p], lookup) <==> Acceptable(paths, lookup)
  {
    var longer := paths + [p];
    var files := Files(paths);
    assert longer[..|paths|] == paths;
    var a := FileOf(paths, p);
    assert Files(longer) == files + [files[a]];
    RepeatedFileHarmless(files, a, lookup);
  }

  lemma RepeatedFileHarmless(files: seq<MigrationFile>, a: nat, lookup: (string, string) -> ClassLookup)
    requires a < |files|
    ensures AllAccepted(files + [files[a]], lookup) <==> AllAccepted(files, lookup)
    ensures Consistent(files + [files[a]]) <==> Consistent(files)
  {
    var more := files + [files[a]];
    assert forall j :: 0 <= j < |files| ==> more[j] == files[j];
    if Consistent(files) {
      forall j, k | 0 <= j < |more| && 0 <= k < |more| && more[j].path != more[k].path
        ensures more[j].version != more[k].version && more[j].className != more[k].className
      {
        var j', k' := if j == |files| then a else j, if k == |files| then a else k;
        assert more[j] == files[j'] && more[k] == files[k'];
      }
    }
  }

  /**
   * The build applies the whole-string class-name check: the file `1_foo`
   * plus a line feed plus `.php` is rejected as an invalid class name, where
   * the pattern as written passes its class name on to class loading.
   */
  lemma LineFeedFileRejected(lookup: (string, string) -> ClassLookup)
    ensures IsValidClassNameAsWritten(ClassOf("m/1_foo\n.php"))
    ensures Explains(InvalidClassName("Foo\n"), ["m/1_foo\n.php"], lookup)
    ensures !Acceptable(["m/1_foo\n.php"], lookup)
  {
    var path := "m/1_foo\n.php";
    assert path == "m" + "/" + "1_foo\n.php";
    BasenameOfFile("m", "1_foo\n.php");
    assert "1_foo\n.php" == "1" + "_" + "foo\n" + "." + "php";
    MigrationFileParts(path, "1", "foo\n", "php");
    TrailingLineFeedAccepted();
    assert ClassOf(path) == "Foo\n";
    InvalidClassNameFound([path], path, lookup);
  }
}
