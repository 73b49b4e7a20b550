/** What a record's entries expose, told by what their keys and values show. */
module BreachExposure {
  import opened Prelude
  import opened Text
  import opened BreachRecord

  // A key that holds a credential

  /** A marker stands in the text, a `pass` that begins `passport` aside. */
  ghost predicate MarkerIn(form: string) {
    exists at: nat :: MarkerAt(form, at)
  }

  ghost predicate MarkerAt(form: string, at: nat) {
    || FoundAt(form, "pwd", at) || FoundAt(form, "hash", at) || FoundAt(form, "salt", at)
    || (FoundAt(form, "pass", at) && !FoundAt(form, "passport", at))
  }

  /** A marker stands in the key in lower case, as written or with its letters and digits run together. */
  ghost predicate HeldBack(key: string) {
    MarkerIn(Lower(key)) || MarkerIn(Alnums(Lower(key)))
  }

  lemma {:induction false} FoundChar(form: string, needle: string, at: nat, k: nat)
    requires FoundAt(form, needle, at) && k < |needle|
    ensures at + k < |form| && form[at + k] == needle[k]
  {
    assert form[at..at + |needle|][k] == form[at + k];
  }

  lemma {:induction false} FoundOnly(form: string, needle: string, other: string, at: nat, k: nat)
    requires FoundAt(form, needle, at) && k < |needle| && k < |other| && needle[k] != other[k]
    ensures !FoundAt(form, other, at)
  {
    hide FoundAt;
    FoundChar(form, needle, at, k);
    if FoundAt(form, other, at) {
      FoundChar(form, other, at, k);
    }
  }

  lemma {:induction false} NotPassport(form: string, at: nat)
    requires FoundAt(form, NOT_A_CREDENTIAL, at)
    ensures !FoundAt(form, "pwd", at) && !FoundAt(form, "hash", at) && !FoundAt(form, "salt", at)
  {
    hide FoundAt;
    FoundOnly(form, NOT_A_CREDENTIAL, "pwd", at, 1);
    FoundOnly(form, NOT_A_CREDENTIAL, "hash", at, 0);
    FoundOnly(form, NOT_A_CREDENTIAL, "salt", at, 0);
  }

  lemma {:induction false} MarkerAtExact(form: string, at: nat)
    ensures MarkerAt(form, at) <==> exists k :: 0 <= k < |CREDENTIAL_MARKERS| && Marks(form, CREDENTIAL_MARKERS[k], at)
  {
    if FoundAt(form, NOT_A_CREDENTIAL, at) {
      NotPassport(form, at);
    }
    hide FoundAt;
    assert Marks(form, CREDENTIAL_MARKERS[0], at) <==> FoundAt(form, "pass", at) && !FoundAt(form, "passport", at);
    assert FoundAt(form, "pwd", at) ==> Marks(form, CREDENTIAL_MARKERS[1], at);
    assert FoundAt(form, "hash", at) ==> Marks(form, CREDENTIAL_MARKERS[2], at);
    assert FoundAt(form, "salt", at) ==> Marks(form, CREDENTIAL_MARKERS[3], at);
  }

  lemma {:induction false} MarkerInExact(form: string)
    ensures Marked(form) <==> MarkerIn(form)
  {
    hide Marked, Marks, MarkerAt;
    MarkedExact(form);
    forall at: nat
      ensures MarkerAt(form, at) <==> exists k :: 0 <= k < |CREDENTIAL_MARKERS| && Marks(form, CREDENTIAL_MARKERS[k], at)
    {
      MarkerAtExact(form, at);
    }
    if at: nat :| MarkerAt(form, at) {
      var k :| 0 <= k < |CREDENTIAL_MARKERS| && Marks(form, CREDENTIAL_MARKERS[k], at);
    }
    if k, at: nat :| 0 <= k < |CREDENTIAL_MARKERS| && Marks(form, CREDENTIAL_MARKERS[k], at) {
      assert MarkerAt(form, at);
    }
  }

  /** A key is a credential exactly when a marker stands in it. */
  lemma {:induction false} CredentialExact(key: string)
    ensures IsCredential(key) <==> HeldBack(key)
  {
    hide Marked, MarkerIn, Lower, Alnums;
    MarkerInExact(Lower(key));
    MarkerInExact(Alnums(Lower(key)));
  }

  // A key that names a password

  /** `word` is `stem` and digits, and the stem does not end in one. */
  ghost predicate StemOf(word: string, stem: string) {
    && stem <= word && AllDigits(word[|stem|..])
    && (stem == "" || !IsDigit(stem[|stem| - 1]))
  }

  /** The word, its trailing digits aside, begins like a password or is the name of one. */
  ghost predicate NamingWord(word: string) {
    exists stem :: StemOf(word, stem)
      && (|| "password" <= stem || "passwd" <= stem || "passwort" <= stem || "passphrase" <= stem || "passcode" <= stem
          || stem in ["pwd", "pwdhash", "passhash", "userpass", "salt"])
  }

  /** The word, its trailing digits aside, may name a password or something else. */
  ghost predicate UnclearWord(word: string) {
    exists stem :: StemOf(word, stem) && stem in ["pass", "hash", "hashed"]
  }

  /** Whose the password is, its age or how it is kept. */
  ghost predicate Companion(word: string) {
    word in ["user", "login", "account", "admin", "old", "new", "plain", "clear", "md5", "sha1", "sha256", "sha512",
             "bcrypt", "crypt", "enc", "encrypted", "salted"]
  }

  /** A word of keys that describe a password. */
  ghost predicate Metadata(word: string) {
    word in ["at", "date", "time", "sent", "changed", "updated", "created", "set", "last", "count", "age",
             "max", "min", "length", "len", "less", "reset", "expires", "expiry", "hint", "policy"]
  }

  /** The word at `k` is one of the key's, all-digit words aside. */
  ghost predicate Lettered(words: seq<string>, k: nat) {
    k < |words| && !AllDigits(words[k])
  }

  /** The word at `k` names a password by itself, alone, or beside another. */
  ghost predicate CountsIn(words: seq<string>, k: nat) {
    && Lettered(words, k)
    && (|| NamingWord(words[k])
        || (UnclearWord(words[k])
            && (|| (forall other: nat | Lettered(words, other) :: other == k)
                || exists other: nat :: other != k && Lettered(words, other)
                     && (Companion(words[other]) || UnclearWord(words[other]) || NamingWord(words[other])))))
  }

  /** The words cut from a key. */
  ghost function WordsOf(key: string): seq<string> {
    Pieces(key, NextStart(key, 0))
  }

  /** A key that is held back, has no word of metadata, and has a word that counts. */
  ghost predicate PasswordKey(key: string) {
    HeldBack(key) && PlainWords(WordsOf(key)) && CountingWords(WordsOf(key))
  }

  ghost predicate PlainWords(words: seq<string>) {
    forall k: nat | Lettered(words, k) :: !Metadata(words[k])
  }

  ghost predicate CountingWords(words: seq<string>) {
    exists k: nat :: CountsIn(words, k)
  }

  lemma {:induction false} BaseExact(word: string, stem: string)
    ensures Base(word) == stem <==> StemOf(word, stem)
    decreases |word|
  {
    if word != "" && IsDigit(word[|word| - 1]) {
      var n := |word| - 1;
      BaseExact(word[..n], stem);
      if stem <= word && |stem| <= n {
        assert word[|stem|..] == word[..n][|stem|..] + [word[n]];
        assert stem <= word[..n];
      }
    } else if stem <= word && |stem| < |word| {
      assert word[|stem|..][|word| - |stem| - 1] == word[|word| - 1];
    }
  }

  lemma {:induction false} StemUnique(word: string)
    ensures StemOf(word, Base(word)) && forall stem | StemOf(word, stem) :: stem == Base(word)
  {
    hide StemOf, Base;
    BaseExact(word, Base(word));
    forall stem | StemOf(word, stem)
      ensures stem == Base(word)
    {
      BaseExact(word, stem);
    }
  }

  lemma {:induction false} NamesWord(word: string)
    ensures Names(word) <==> NamingWord(word)
  {
    hide StemOf, Base;
    StemUnique(word);
    var stem := Base(word);
    assert PASSWORD_WORDS[0] == "password" && PASSWORD_WORDS[1] == "passwd" && PASSWORD_WORDS[2] == "passwort";
    assert PASSWORD_WORDS[3] == "passphrase" && PASSWORD_WORDS[4] == "passcode";
  }

  lemma {:induction false} AmbiguousWord(word: string)
    ensures Ambiguous(word) <==> UnclearWord(word)
  {
    hide StemOf, Base;
    StemUnique(word);
  }

  /** `ks` are the positions of the words left when the all-digit ones are dropped. */
  ghost predicate Leaves(words: seq<string>, ks: seq<nat>) {
    && |ks| == |WithoutNumbers(words)|
    && (forall i, j | 0 <= i < j < |ks| :: ks[i] < ks[j])
    && (forall i | 0 <= i < |ks| :: ks[i] < |words| && words[ks[i]] == WithoutNumbers(words)[i])
    && (forall k: nat :: k in ks <==> Lettered(words, k))
  }

  function Moved(ks: seq<nat>): (r: seq<nat>)
    ensures |r| == |ks| && forall i | 0 <= i < |ks| :: r[i] == ks[i] + 1
  {
    seq(|ks|, i requires 0 <= i < |ks| => ks[i] + 1)
  }

  lemma MovedIn(ks: seq<nat>, k: nat)
    ensures k in Moved(ks) <==> k > 0 && k - 1 in ks
  {
    if k > 0 && k - 1 in ks {
      var i :| 0 <= i < |ks| && ks[i] == k - 1;
      assert Moved(ks)[i] == k;
    }
  }

  lemma {:induction false} LeavesMore(word: string, words: seq<string>, rest: seq<nat>)
    requires Leaves(words, rest)
    ensures Leaves([word] + words, (if AllDigits(word) then [] else [0]) + Moved(rest))
  {
    hide AllDigits, Moved;
    var all := [word] + words;
    var ks := (if AllDigits(word) then [] else [0]) + Moved(rest);
    assert all[1..] == words;
    forall k: nat
      ensures k in ks <==> Lettered(all, k)
    {
      MovedIn(rest, k);
      assert k > 0 ==> (Lettered(all, k) <==> Lettered(words, k - 1));
    }
  }

  lemma {:induction false} NumbersDropped(words: seq<string>) returns (ks: seq<nat>)
    ensures Leaves(words, ks)
    decreases |words|
  {
    ks := [];
    if words != [] {
      hide Leaves, AllDigits;
      var rest := NumbersDropped(words[1..]);
      LeavesMore(words[0], words[1..], rest);
      assert words == [words[0]] + words[1..];
      ks := (if AllDigits(words[0]) then [] else [0]) + Moved(rest);
    }
  }

  lemma {:induction false} LeavesAt(words: seq<string>, ks: seq<nat>, other: nat) returns (i: nat)
    requires Leaves(words, ks) && Lettered(words, other)
    ensures i < |ks| && ks[i] == other
  {
    assert other in ks;
    i :| 0 <= i < |ks| && ks[i] == other;
  }

  lemma {:induction false} LeavesOne(words: seq<string>, ks: seq<nat>, at: nat)
    requires Leaves(words, ks) && at < |ks|
    ensures |ks| == 1 <==> forall other: nat | Lettered(words, other) :: other == ks[at]
  {
    assert forall i | 0 <= i < |ks| :: ks[i] in ks;
    if |ks| > 1 {
      var i := if at == 0 then 1 else 0;
      assert ks[i] != ks[at] && Lettered(words, ks[i]);
    }
  }

  /** Words beside which an unclear one counts. */
  ghost predicate Beside(word: string) {
    Companion(word) || UnclearWord(word) || NamingWord(word)
  }

  /** A word counts among the words left as it does among all of them. */
  lemma {:induction false} CountsExact(words: seq<string>, ks: seq<nat>, at: nat)
    requires Leaves(words, ks) && at < |ks|
    ensures Counts(WithoutNumbers(words), at) <==> CountsIn(words, ks[at])
  {
    hide WithoutNumbers, Names, Ambiguous, NamingWord, UnclearWord, AllDigits;
    var left := WithoutNumbers(words);
    forall i | 0 <= i < |left|
      ensures Names(left[i]) <==> NamingWord(words[ks[i]])
      ensures Ambiguous(left[i]) <==> UnclearWord(words[ks[i]])
      ensures Lettered(words, ks[i])
    {
      NamesWord(left[i]);
      AmbiguousWord(left[i]);
      assert ks[i] in ks;
    }
    LeavesOne(words, ks, at);
    forall other: nat | other != ks[at] && Lettered(words, other)
      ensures exists i :: 0 <= i < |ks| && i != at && ks[i] == other
    {
      var i := LeavesAt(words, ks, other);
    }
    if i :| 0 <= i < |left| && i != at
            && (left[i] in PASSWORD_COMPANIONS || Ambiguous(left[i]) || Names(left[i])) {
      assert ks[i] != ks[at] && Lettered(words, ks[i]) && Beside(words[ks[i]]);
    }
  }

  /** A key names a password exactly when its words say so. */
  lemma {:induction false} NamesExact(key: string)
    ensures NamesAPassword(key) <==> PasswordKey(key)
  {
    hide IsCredential, HeldBack, KeyWords, Pieces, WithoutNumbers, Describes, SomeCounts, PlainWords, CountingWords;
    CredentialExact(key);
    WordsCut(key);
    var words := KeyWords(key);
    assert WordsOf(key) == words;
    var ks := NumbersDropped(words);
    PlainExact(words, ks);
    CountingExact(words, ks);
  }

  lemma MetadataExact(word: string)
    ensures word in PASSWORD_METADATA <==> Metadata(word)
  {
  }

  lemma {:induction false} PlainExact(words: seq<string>, ks: seq<nat>)
    requires Leaves(words, ks)
    ensures !Describes(WithoutNumbers(words)) <==> PlainWords(words)
  {
    hide WithoutNumbers, AllDigits, Metadata;
    var left := WithoutNumbers(words);
    if i :| 0 <= i < |left| && left[i] in PASSWORD_METADATA {
      MetadataExact(left[i]);
      assert ks[i] in ks && Lettered(words, ks[i]) && left[i] == words[ks[i]];
    }
    if k: nat :| Lettered(words, k) && Metadata(words[k]) {
      MetadataExact(words[k]);
      var i := LeavesAt(words, ks, k);
      assert left[i] in PASSWORD_METADATA;
    }
  }

  lemma {:induction false} CountingExact(words: seq<string>, ks: seq<nat>)
    requires Leaves(words, ks)
    ensures SomeCounts(WithoutNumbers(words)) <==> CountingWords(words)
  {
    hide Counts, CountsIn, WithoutNumbers, AllDigits;
    var left := WithoutNumbers(words);
    if at :| 0 <= at < |left| && Counts(left, at) {
      CountsExact(words, ks, at);
    }
    if k: nat :| CountsIn(words, k) {
      CountsLettered(words, k);
      var i := LeavesAt(words, ks, k);
      CountsExact(words, ks, i);
    }
  }

  lemma CountsLettered(words: seq<string>, k: nat)
    requires CountsIn(words, k)
    ensures Lettered(words, k)
  {
  }

  // A value that holds something

  /** A number, `true`, text that is not blank, or a list or object that is not empty. */
  ghost predicate HoldsSomething(value: Json) {
    match value
    case Null => false
    case Bool(b) => b
    case Number(_) => true
    case Str(s) => !Blank(s)
    case Arr(items) => |items| > 0
    case Obj(entries) => |entries| > 0
  }

  lemma {:induction false} TrimBlank(s: string)
    ensures Trim(s) == "" <==> Blank(s)
  {
    TrimExact(s, "");
    hide Trim, IsWhitespace;
    if Trim(s) == "" {
      var before, after :| Blank(before) && Blank(after) && s == before + "" + after;
      assert forall k | 0 <= k < |s| :: s[k] == if k < |before| then before[k] else after[k - |before|];
    }
    if Blank(s) {
      assert Blank("") && s == s + "" + "";
      assert TrimsTo(s, "");
    }
  }

  lemma {:induction false} PresentExact(value: Json)
    ensures Present(value) <==> HoldsSomething(value)
  {
    hide Trim, Blank;
    if value.Str? {
      TrimBlank(value.s);
    }
  }

  // An entry

  lemma {:induction false} FoundSame(value: Json, path: seq<nat>, k: nat, names: string -> bool, counts: Json -> bool,
                                     named: string -> bool, counted: Json -> bool)
    requires forall key :: names(key) <==> named(key)
    requires forall v :: counts(v) <==> counted(v)
    ensures Found(value, path, k, names, counts) <==> Found(value, path, k, named, counted)
  {
    hide At;
  }

  /** The entry holds something, under a key that names a password or over one that holds something too. */
  ghost predicate ShowsPassword(entry: Entry) {
    && HoldsSomething(entry.value)
    && (PasswordKey(entry.key) || exists path, k :: Found(entry.value, path, k, PasswordKey, HoldsSomething))
  }

  lemma {:induction false} ExposesExact(entry: Entry)
    ensures Exposes(entry) <==> ShowsPassword(entry)
  {
    hide NamesAPassword, PasswordKey, Present, HoldsSomething, HoldsCredential, Found;
    PresentExact(entry.value);
    NamesExact(entry.key);
    HoldsExact(entry.value, NamesAPassword, Present);
    forall key
      ensures NamesAPassword(key) <==> PasswordKey(key)
    {
      NamesExact(key);
    }
    forall v
      ensures Present(v) <==> HoldsSomething(v)
    {
      PresentExact(v);
    }
    forall path, k
      ensures Found(entry.value, path, k, NamesAPassword, Present) <==>
        Found(entry.value, path, k, PasswordKey, HoldsSomething)
    {
      FoundSame(entry.value, path, k, NamesAPassword, Present, PasswordKey, HoldsSomething);
    }
  }

  /** What white space surrounds in the key is, in lower case, this field name. */
  ghost predicate NamesField(key: string, field: string) {
    IsFieldName(field) && exists written :: TrimsTo(key, written) && Lower(written) == field
  }

  /** The entry holds something under this field. */
  ghost predicate ShowsField(entry: Entry, field: string) {
    HoldsSomething(entry.value) && NamesField(entry.key, field)
  }

  lemma {:induction false} FieldOfExact(entry: Entry, field: string)
    ensures FieldOf(entry) == Some(field) <==> ShowsField(entry, field)
  {
    hide Present, HoldsSomething, FieldName, TrimsTo, Lower, IsFieldName;
    PresentExact(entry.value);
    FieldNameExact(entry.key, field);
  }

  /** The entry gives this text: it neither is nor holds a credential, and the text is its whole value and fits. */
  ghost predicate ShowsText(entry: Entry, text: string, compact: Json -> Option<string>) {
    && !HeldBack(entry.key) && (forall path, k :: !Found(entry.value, path, k, HeldBack, Every))
    && WrittenAs(entry.value, text, compact) && text != "" && ByteLength(text) <= 1024
  }

  lemma {:induction false} TextOfExact(entry: Entry, text: string, compact: Json -> Option<string>)
    ensures TextOf(entry, compact) == Some(text) <==> ShowsText(entry, text, compact)
  {
    hide IsCredential, HeldBack, HoldsCredential, Found, RecordValue, WrittenAs, ByteLength;
    CredentialExact(entry.key);
    HoldsExact(entry.value, IsCredential, Every);
    RecordValueExact(entry.value, text, compact);
    forall key
      ensures IsCredential(key) <==> HeldBack(key)
    {
      CredentialExact(key);
    }
    forall path, k
      ensures Found(entry.value, path, k, IsCredential, Every) <==> Found(entry.value, path, k, HeldBack, Every)
    {
      FoundSame(entry.value, path, k, IsCredential, Every, HeldBack, Every);
    }
  }
}
