/** What a breach record exposes: the fields and values kept of it, within bounds and never a credential. */
module BreachRecord {
  import opened Prelude
  import opened Text

  datatype Json =
    | Null
    | Bool(b: bool)
    | Number(written: string)
    | Str(s: string)
    | Arr(items: seq<Json>)
    | Obj(entries: seq<Entry>)

  datatype Entry = Entry(key: string, value: Json)

  const MAX_FIELDS: nat := 64
  const MAX_FIELD_BYTES: nat := 48
  const MAX_VALUES_PER_FIELD: nat := 64
  const MAX_VALUE_BYTES: nat := 1024

  const CREDENTIAL_MARKERS: seq<string> := ["pass", "pwd", "hash", "salt"]
  const NOT_A_CREDENTIAL: string := "passport"
  const PASSWORD_WORDS: seq<string> := ["password", "passwd", "passwort", "passphrase", "passcode"]
  const PASSWORD_NAMES: seq<string> := ["pwd", "pwdhash", "passhash", "userpass", "salt"]
  const AMBIGUOUS_PASSWORD_WORDS: seq<string> := ["pass", "hash", "hashed"]
  const PASSWORD_COMPANIONS: seq<string> :=
    ["user", "login", "account", "admin", "old", "new", "plain", "clear", "md5", "sha1", "sha256", "sha512",
     "bcrypt", "crypt", "enc", "encrypted", "salted"]
  const PASSWORD_METADATA: seq<string> :=
    ["at", "date", "time", "sent", "changed", "updated", "created", "set", "last", "count", "age",
     "max", "min", "length", "len", "less", "reset", "expires", "expiry", "hint", "policy"]

  /** A string's length in UTF-8. */
  function ByteLength(s: string): (n: nat) {
    if s == "" then 0
    else
      var c := s[0] as int;
      (if c < 0x80 then 1 else if c < 0x800 then 2 else if c < 0x1_0000 then 3 else 4) + ByteLength(s[1..])
  }

  // Keys that name a credential

  /** `marker` occurs in `form` other than at the start of a `passport`, scanning on past each occurrence. */
  predicate MarkedFrom(form: string, marker: string, from: nat)
    requires from <= |form| && marker != ""
    decreases |form| - from
  {
    var at := FindFrom(form, marker, from);
    at != -1 && (!FoundAt(form, NOT_A_CREDENTIAL, at) || MarkedFrom(form, marker, at + |marker|))
  }

  predicate Marked(form: string) {
    exists k | 0 <= k < |CREDENTIAL_MARKERS| :: MarkedFrom(form, CREDENTIAL_MARKERS[k], 0)
  }

  predicate IsCredential(key: string) {
    var written := Lower(key);
    Marked(written) || Marked(Alnums(written))
  }

  /** The occurrence scanned for, wherever it stands and whatever it overlaps. */
  ghost predicate Marks(form: string, marker: string, at: nat) {
    FoundAt(form, marker, at) && !FoundAt(form, NOT_A_CREDENTIAL, at)
  }

  ghost predicate IsMarker(marker: string) {
    marker in CREDENTIAL_MARKERS
  }

  lemma MarkerLength(marker: string)
    requires IsMarker(marker)
    ensures 3 <= |marker| <= 4 && marker != ""
  {
  }

  /** A marker that stands where a `passport` starts is `pass`, and none other starts inside it. */
  lemma {:induction false} MarkersApart(form: string, marker: string, at: nat, other: nat)
    requires IsMarker(marker) && FoundAt(form, marker, at) && FoundAt(form, marker, other)
    requires FoundAt(form, NOT_A_CREDENTIAL, at) && at < other
    ensures at + |marker| <= other
  {
    assert forall k | 0 <= k < |marker| :: form[at + k] == marker[k];
    assert form[at + 0] == form[at..at + 8][0] == 'p';
    assert form[at + 1] == form[at..at + 8][1] == 'a';
    assert form[at + 2] == form[at..at + 8][2] == 's';
    assert form[at + 3] == form[at..at + 8][3] == 's';
    assert marker[0] == 'p' && form[other + 0] == form[other..other + |marker|][0] == 'p';
  }

  /** After a `passport` the scan goes on where the next occurrence may be. */
  lemma {:induction false} MarksAfter(form: string, marker: string, from: nat, at: nat)
    requires IsMarker(marker) && from <= at && FoundAt(form, marker, at) && FoundAt(form, NOT_A_CREDENTIAL, at)
    requires forall k | from <= k < at :: !FoundAt(form, marker, k)
    ensures forall other: nat | from <= other && Marks(form, marker, other) :: at + |marker| <= other
  {
    forall other: nat | from <= other && Marks(form, marker, other)
      ensures at + |marker| <= other
    {
      hide FoundAt, IsMarker;
      MarkersApart(form, marker, at, other);
    }
  }

  lemma {:induction false} MarksShift(form: string, marker: string, from: nat, next: nat)
    requires from <= next && forall other: nat | from <= other && Marks(form, marker, other) :: next <= other
    ensures (exists at: nat :: from <= at && Marks(form, marker, at)) <==>
      exists at: nat :: next <= at && Marks(form, marker, at)
  {
    hide Marks;
  }

  lemma MarkedFromStep(form: string, marker: string, from: nat)
    requires IsMarker(marker) && from <= |form|
    ensures marker != ""
    ensures var at := FindFrom(form, marker, from);
      MarkedFrom(form, marker, from) ==
        (at != -1 && (!FoundAt(form, NOT_A_CREDENTIAL, at) || MarkedFrom(form, marker, at + |marker|)))
  {
    MarkerLength(marker);
    hide IsMarker;
  }

  lemma {:induction false} MarkedFromExact(form: string, marker: string, from: nat)
    requires IsMarker(marker) && from <= |form|
    ensures marker != "" && (MarkedFrom(form, marker, from) <==> exists at: nat :: from <= at && Marks(form, marker, at))
    decreases |form| - from
  {
    hide MarkedFrom, FindFrom, IsMarker;
    MarkedFromStep(form, marker, from);
    var at := FindFrom(form, marker, from);
    if at != -1 && FoundAt(form, NOT_A_CREDENTIAL, at) {
      MarkedFromExact(form, marker, at + |marker|);
      MarksAfter(form, marker, from, at);
      MarksShift(form, marker, from, at + |marker|);
    } else if at != -1 {
      assert Marks(form, marker, at);
    }
  }

  /** A form is marked exactly when a marker stands in it anywhere but at the start of a `passport`. */
  lemma {:induction false} MarkedExact(form: string)
    ensures Marked(form) <==>
      exists k, at: nat :: 0 <= k < |CREDENTIAL_MARKERS| && Marks(form, CREDENTIAL_MARKERS[k], at)
  {
    hide MarkedFrom, Marks;
    forall k | 0 <= k < |CREDENTIAL_MARKERS|
      ensures MarkedFrom(form, CREDENTIAL_MARKERS[k], 0) <==> exists at: nat :: Marks(form, CREDENTIAL_MARKERS[k], at)
    {
      MarkedFromExact(form, CREDENTIAL_MARKERS[k], 0);
    }
  }

  // The words of a key

  /** A capital that begins a word inside a run of letters and digits. */
  predicate StartsWord(key: string, at: nat)
    requires at < |key|
  {
    && IsUpper(key[at]) && at > 0
    && (IsLower(key[at - 1]) || (IsUpper(key[at - 1]) && at + 1 < |key| && IsLower(key[at + 1])))
  }

  /** The words read from `at` on, `word` being read. */
  function WordsFrom(key: string, at: nat, word: string): seq<string>
    requires at <= |key|
    decreases |key| - at
  {
    if at == |key| then Flushed(word)
    else if !IsAlnum(key[at]) then Flushed(word) + WordsFrom(key, at + 1, "")
    else
      var c := LowerChar(key[at]);
      if StartsWord(key, at) && word != "" then [word] + WordsFrom(key, at + 1, [c])
      else WordsFrom(key, at + 1, word + [c])
  }

  function Flushed(word: string): seq<string> {
    if word == "" then [] else [word]
  }

  function KeyWords(key: string): seq<string> {
    WordsFrom(key, 0, "")
  }

  method SplitWords(key: string) returns (words: seq<string>)
    ensures words == KeyWords(key)
  {
    words := [];
    var word := "";
    for at := 0 to |key|
      invariant words + WordsFrom(key, at, word) == KeyWords(key)
    {
      var c := key[at];
      assert words + (Flushed(word) + WordsFrom(key, at + 1, "")) == words + Flushed(word) + WordsFrom(key, at + 1, "");
      assert words + ([word] + WordsFrom(key, at + 1, [LowerChar(c)])) == words + [word] + WordsFrom(key, at + 1, [LowerChar(c)]);
      if !IsAlnum(c) {
        if word != "" {
          words := words + [word];
          word := "";
        }
        continue;
      }
      if StartsWord(key, at) && word != "" {
        words := words + [word];
        word := "";
      }
      assert "" + [LowerChar(c)] == [LowerChar(c)];
      word := word + [LowerChar(c)];
    }
    if word != "" {
      words := words + [word];
    }
  }

  /**
   Where a word begins: a letter or digit after none, a capital after a lower-case letter, or the last capital of
   a run that a lower-case letter follows.
   */
  predicate IsStart(key: string, at: nat)
    requires at < |key|
  {
    && IsAlnum(key[at])
    && (|| at == 0 || !IsAlnum(key[at - 1])
        || (IsLower(key[at - 1]) && IsUpper(key[at]))
        || (IsUpper(key[at - 1]) && IsUpper(key[at]) && at + 1 < |key| && IsLower(key[at + 1])))
  }

  /** The first start at or after `at`, or the end of the key. */
  function NextStart(key: string, at: nat): (r: nat)
    requires at <= |key|
    ensures at <= r <= |key| && (r < |key| ==> IsStart(key, r))
    ensures forall k | at <= k < r :: !IsStart(key, k)
    decreases |key| - at
  {
    if at == |key| || IsStart(key, at) then at else NextStart(key, at + 1)
  }

  /** The lower-cased letters and digits from each start to the next. */
  function Pieces(key: string, start: nat): seq<string>
    requires start <= |key|
    decreases |key| - start
  {
    if start == |key| then []
    else
      var end := NextStart(key, start + 1);
      [Alnums(Lower(key[start..end]))] + Pieces(key, end)
  }

  lemma {:induction false} AlnumsFirst(c: char, s: string)
    ensures Alnums([c] + s) == (if IsAlnum(c) then [c] else "") + Alnums(s)
  {
    assert ([c] + s)[1..] == s;
  }

  lemma {:induction false} AlnumsAppend(s: string, t: string)
    ensures Alnums(s + t) == Alnums(s) + Alnums(t)
    decreases |s|
  {
    if s == "" {
      assert s + t == t && Alnums(s) == "";
    } else {
      hide Alnums, IsAlnum;
      AlnumsAppend(s[1..], t);
      AlnumsFirst(s[0], s[1..]);
      AlnumsFirst(s[0], s[1..] + t);
      assert s == [s[0]] + s[1..] && s + t == [s[0]] + (s[1..] + t);
    }
  }

  lemma {:induction false} LowerAppend(s: string, t: string)
    ensures Lower(s + t) == Lower(s) + Lower(t)
  {
  }

  /** The letters and digits of `key[from..to]` from its first character's on. */
  lemma {:induction false} AlnumsSlice(key: string, from: nat, to: nat)
    requires from < to <= |key|
    ensures Alnums(Lower(key[from..to])) ==
      (if IsAlnum(key[from]) then [LowerChar(key[from])] else "") + Alnums(Lower(key[from + 1..to]))
  {
    assert Lower(key[from..to])[1..] == Lower(key[from + 1..to]);
  }

  lemma {:induction false} WordsGap(key: string, at: nat, word: string)
    requires at < |key| && !IsAlnum(key[at])
    ensures WordsFrom(key, at, word) == Flushed(word) + WordsFrom(key, at + 1, "")
  {
  }

  lemma {:induction false} WordsStart(key: string, at: nat, word: string)
    requires at < |key| && IsStart(key, at)
    requires word == "" <==> at == 0 || !IsAlnum(key[at - 1])
    ensures WordsFrom(key, at, word) == Flushed(word) + WordsFrom(key, at + 1, [LowerChar(key[at])])
  {
    assert "" + [LowerChar(key[at])] == [LowerChar(key[at])];
  }

  lemma {:induction false} WordsRun(key: string, at: nat, word: string)
    requires at < |key| && IsAlnum(key[at]) && !IsStart(key, at)
    requires word == "" <==> at == 0 || !IsAlnum(key[at - 1])
    ensures word != "" && WordsFrom(key, at, word) == WordsFrom(key, at + 1, word + [LowerChar(key[at])])
  {
  }

  /** The words read from `at` on are `word` run on to the next start, and the pieces from there. */
  ghost predicate CutFrom(key: string, at: nat, word: string)
    requires at <= |key|
  {
    var end := NextStart(key, at);
    WordsFrom(key, at, word) == Flushed(word + Alnums(Lower(key[at..end]))) + Pieces(key, end)
  }

  lemma {:induction false} CutAtEnd(key: string, word: string)
    ensures CutFrom(key, |key|, word)
  {
    hide Alnums, Lower, WordsFrom, Pieces, NextStart;
    NextStartStep(key, |key|);
    PiecesStep(key, |key|);
    NothingBetween(key, |key|);
    NoWordsLeft(key, word);
    assert word + "" == word;
  }

  lemma {:induction false} CutAtStart(key: string, at: nat, word: string)
    requires at < |key| && IsStart(key, at) && CutFrom(key, at + 1, [LowerChar(key[at])])
    requires word == "" <==> at == 0 || !IsAlnum(key[at - 1])
    ensures CutFrom(key, at, word)
  {
    NextStartStep(key, at);
    StartsAlnum(key, at);
    hide Alnums, Lower, WordsFrom, Pieces, NextStart, IsStart, IsAlnum, LowerChar;
    PiecesStep(key, at);
    NothingBetween(key, at);
    AlnumsSlice(key, at, NextStart(key, at + 1));
    WordsStart(key, at, word);
    assert word + "" == word;
  }

  lemma {:induction false} CutInRun(key: string, at: nat, word: string)
    requires at < |key| && !IsStart(key, at) && IsAlnum(key[at]) && CutFrom(key, at + 1, word + [LowerChar(key[at])])
    requires word == "" <==> at == 0 || !IsAlnum(key[at - 1])
    ensures CutFrom(key, at, word)
  {
    hide Alnums, Lower, WordsFrom, Pieces, NextStart, IsStart, IsAlnum, LowerChar;
    var end, c := NextStart(key, at), LowerChar(key[at]);
    NextStartStep(key, at);
    AlnumsSlice(key, at, end);
    WordsRun(key, at, word);
    assert word + [c] + Alnums(Lower(key[at + 1..end])) == word + ([c] + Alnums(Lower(key[at + 1..end])));
  }

  lemma {:induction false} CutInGap(key: string, at: nat, word: string)
    requires at < |key| && !IsStart(key, at) && !IsAlnum(key[at]) && CutFrom(key, at + 1, "")
    ensures CutFrom(key, at, word)
  {
    hide Alnums, Lower, WordsFrom, Pieces, NextStart, IsStart, IsAlnum;
    var end := NextStart(key, at);
    NextStartStep(key, at);
    AlnumsSlice(key, at, end);
    WordsGap(key, at, word);
    SkipsNothing(key, at + 1, end);
    assert word + "" == word && "" + "" == "";
  }

  lemma {:induction false} WordsFromCut(key: string, at: nat, word: string)
    requires at <= |key|
    requires word == "" <==> at == 0 || !IsAlnum(key[at - 1])
    ensures CutFrom(key, at, word)
    decreases |key| - at
  {
    hide CutFrom, IsStart, IsAlnum, LowerChar;
    if at == |key| {
      CutAtEnd(key, word);
    } else {
      StartsAlnum(key, at);
      var c := LowerChar(key[at]);
      if IsStart(key, at) {
        WordsFromCut(key, at + 1, [c]);
        CutAtStart(key, at, word);
      } else if IsAlnum(key[at]) {
        WordsFromCut(key, at + 1, word + [c]);
        CutInRun(key, at, word);
      } else {
        WordsFromCut(key, at + 1, "");
        CutInGap(key, at, word);
      }
    }
  }

  lemma NextStartStep(key: string, at: nat)
    requires at <= |key|
    ensures NextStart(key, at) == if at == |key| || IsStart(key, at) then at else NextStart(key, at + 1)
  {
  }

  lemma PiecesStep(key: string, start: nat)
    requires start <= |key|
    ensures Pieces(key, start) ==
      if start == |key| then []
      else [Alnums(Lower(key[start..NextStart(key, start + 1)]))] + Pieces(key, NextStart(key, start + 1))
  {
  }

  lemma StartsAlnum(key: string, at: nat)
    requires at < |key|
    ensures IsStart(key, at) ==> IsAlnum(key[at])
  {
  }

  lemma NoWordsLeft(key: string, word: string)
    ensures WordsFrom(key, |key|, word) == Flushed(word)
  {
  }

  lemma NothingBetween(key: string, at: nat)
    requires at <= |key|
    ensures Alnums(Lower(key[at..at])) == ""
  {
  }

  /** Between a separator and the next start there are no letters or digits. */
  lemma {:induction false} SkipsNothing(key: string, from: nat, end: nat)
    requires 0 < from <= |key| && !IsAlnum(key[from - 1]) && end == NextStart(key, from)
    ensures Alnums(Lower(key[from..end])) == ""
    decreases |key| - from
  {
    hide Alnums, Lower;
    if from == end {
      NothingBetween(key, from);
    } else {
      AlnumsSlice(key, from, end);
      SkipsNothing(key, from + 1, end);
    }
  }

  /** The words of a key are its pieces, cut at every start and nowhere else. */
  lemma {:induction false} WordsCut(key: string)
    ensures KeyWords(key) == Pieces(key, NextStart(key, 0))
  {
    hide WordsFrom, Pieces;
    WordsFromCut(key, 0, "");
    var end := NextStart(key, 0);
    FirstStart(key);
  }

  lemma {:induction false} FirstStart(key: string)
    ensures Alnums(Lower(key[0..NextStart(key, 0)])) == ""
  {
    var end := NextStart(key, 0);
    if end > 0 {
      AlnumsSlice(key, 0, end);
      SkipsNothing(key, 1, end);
    } else {
      NothingBetween(key, 0);
    }
  }

  function Concat(words: seq<string>): string {
    if words == [] then "" else words[0] + Concat(words[1..])
  }

  lemma {:induction false} PiecesWhole(key: string, start: nat)
    requires start <= |key|
    ensures Concat(Pieces(key, start)) == Alnums(Lower(key[start..]))
    decreases |key| - start
  {
    hide Alnums, Lower;
    if start == |key| {
      NothingBetween(key, start);
    } else {
      var end := NextStart(key, start + 1);
      PiecesWhole(key, end);
      LowerAppend(key[start..end], key[end..]);
      AlnumsAppend(Lower(key[start..end]), Lower(key[end..]));
      assert key[start..] == key[start..end] + key[end..];
      assert Pieces(key, start)[1..] == Pieces(key, end);
    }
  }

  /** Run together, the words of a key are its letters and digits in lower case. */
  lemma {:induction false} WordsWhole(key: string)
    ensures Concat(KeyWords(key)) == Alnums(Lower(key))
  {
    hide Alnums, Lower, KeyWords, Pieces;
    var start := NextStart(key, 0);
    WordsCut(key);
    PiecesWhole(key, start);
    FirstStart(key);
    LowerAppend(key[0..start], key[start..]);
    AlnumsAppend(Lower(key[0..start]), Lower(key[start..]));
    assert key == key[0..start] + key[start..];
  }

  // Keys that name a password

  function WithoutNumbers(words: seq<string>): seq<string> {
    if words == [] then []
    else (if AllDigits(words[0]) then [] else [words[0]]) + WithoutNumbers(words[1..])
  }

  function Base(word: string): string {
    if word != "" && IsDigit(word[|word| - 1]) then Base(word[..|word| - 1]) else word
  }

  predicate Names(word: string) {
    || (exists k | 0 <= k < |PASSWORD_WORDS| :: PASSWORD_WORDS[k] <= Base(word))
    || Base(word) in PASSWORD_NAMES
  }

  predicate Ambiguous(word: string) {
    Base(word) in AMBIGUOUS_PASSWORD_WORDS
  }

  predicate Counts(words: seq<string>, at: nat)
    requires at < |words|
  {
    || Names(words[at])
    || (Ambiguous(words[at])
        && (|words| == 1
            || exists other | 0 <= other < |words| ::
                 other != at
                 && (words[other] in PASSWORD_COMPANIONS || Ambiguous(words[other]) || Names(words[other]))))
  }

  /** Some word makes the key describe a password. */
  predicate Describes(words: seq<string>) {
    exists k | 0 <= k < |words| :: words[k] in PASSWORD_METADATA
  }

  predicate SomeCounts(words: seq<string>) {
    exists at | 0 <= at < |words| :: Counts(words, at)
  }

  predicate NamesAPassword(key: string) {
    var words := WithoutNumbers(KeyWords(key));
    IsCredential(key) && !Describes(words) && SomeCounts(words)
  }

  // Credentials inside a value

  predicate HoldsCredential(value: Json, names: string -> bool, counts: Json -> bool) {
    match value
    case Arr(items) => exists k | 0 <= k < |items| :: HoldsCredential(items[k], names, counts)
    case Obj(entries) =>
      exists k | 0 <= k < |entries| ::
        (names(entries[k].key) && counts(entries[k].value)) || HoldsCredential(entries[k].value, names, counts)
    case _ => false
  }

  function Children(value: Json): seq<Json> {
    match value
    case Arr(items) => items
    case Obj(entries) => seq(|entries|, k requires 0 <= k < |entries| => entries[k].value)
    case _ => []
  }

  /** What lies at the end of a path of child positions. */
  function At(value: Json, path: seq<nat>): Option<Json>
    decreases |path|
  {
    if path == [] then Some(value)
    else if path[0] < |Children(value)| then At(Children(value)[path[0]], path[1..])
    else None
  }

  /** The object at the end of `path` has such an entry at position `k`. */
  ghost predicate Found(value: Json, path: seq<nat>, k: nat, names: string -> bool, counts: Json -> bool) {
    match At(value, path)
    case Some(Obj(entries)) => k < |entries| && names(entries[k].key) && counts(entries[k].value)
    case _ => false
  }

  /** A value holds a credential exactly when some path in it leads to an entry that is one. */
  lemma {:induction false} HoldsExact(value: Json, names: string -> bool, counts: Json -> bool)
    ensures HoldsCredential(value, names, counts) <==> exists path, k :: Found(value, path, k, names, counts)
  {
    if HoldsCredential(value, names, counts) {
      var path, k := HeldAt(value, names, counts);
    }
    forall path, k | Found(value, path, k, names, counts)
      ensures HoldsCredential(value, names, counts)
    {
      FoundHeld(value, path, k, names, counts);
    }
  }

  lemma {:induction false} HeldAt(value: Json, names: string -> bool, counts: Json -> bool) returns (path: seq<nat>, k: nat)
    requires HoldsCredential(value, names, counts)
    ensures Found(value, path, k, names, counts)
    decreases value
  {
    match value {
      case Arr(items) =>
        var i: nat :| i < |items| && HoldsCredential(items[i], names, counts);
        var rest;
        rest, k := HeldAt(items[i], names, counts);
        path := [i] + rest;
        assert path[1..] == rest;
      case Obj(entries) =>
        var i: nat :| i < |entries|
          && ((names(entries[i].key) && counts(entries[i].value)) || HoldsCredential(entries[i].value, names, counts));
        if names(entries[i].key) && counts(entries[i].value) {
          path, k := [], i;
        } else {
          var rest;
          rest, k := HeldAt(entries[i].value, names, counts);
          path := [i] + rest;
          assert path[1..] == rest;
        }
    }
  }

  lemma {:induction false} FoundHeld(value: Json, path: seq<nat>, k: nat, names: string -> bool, counts: Json -> bool)
    requires Found(value, path, k, names, counts)
    ensures HoldsCredential(value, names, counts)
    decreases |path|
  {
    if path == [] {
      var entry := value.entries[k];
    } else {
      FoundHeld(Children(value)[path[0]], path[1..], k, names, counts);
    }
  }

  // What one entry of a record gives

  predicate FieldChar(c: char) {
    IsLower(c) || IsDigit(c) || c == '_'
  }

  function FieldName(key: string): (r: Option<string>)
    ensures r.Some? ==> r.value != "" && ByteLength(r.value) <= MAX_FIELD_BYTES
    ensures r.Some? ==> forall k | 0 <= k < |r.value| :: FieldChar(r.value[k])
  {
    var name := Lower(Trim(key));
    if name != "" && ByteLength(name) <= MAX_FIELD_BYTES && forall k | 0 <= k < |name| :: FieldChar(name[k])
    then Some(name) else None
  }

  predicate Present(value: Json) {
    match value
    case Null => false
    case Bool(b) => b
    case Number(_) => true
    case Str(s) => Trim(s) != ""
    case Arr(items) => items != []
    case Obj(entries) => entries != []
  }

  /** `compact` writes a list or object as compact JSON. */
  function RecordValue(value: Json, compact: Json -> Option<string>): (r: Option<string>)
    ensures r.Some? ==> r.value != "" && ByteLength(r.value) <= MAX_VALUE_BYTES
  {
    var text := match value
      case Null => None
      case Bool(b) => if b then Some("true") else None
      case Number(written) => Some(written)
      case Str(s) => Some(Trim(s))
      case _ => compact(value);
    if text.Some? && text.value != "" && ByteLength(text.value) <= MAX_VALUE_BYTES then text else None
  }

  lemma {:induction false} AsciiLength(s: string)
    requires forall k | 0 <= k < |s| :: FieldChar(s[k])
    ensures ByteLength(s) == |s|
  {
    if s != "" {
      AsciiLength(s[1..]);
    }
  }

  /** `name` is at most 48 lower-case letters, digits and underscores. */
  ghost predicate IsFieldName(name: string) {
    && 0 < |name| <= 48
    && forall k | 0 <= k < |name| :: 'a' <= name[k] <= 'z' || '0' <= name[k] <= '9' || name[k] == '_'
  }

  /** A key's field name is what white space surrounds in it, in lower case, whole or not at all. */
  lemma {:induction false} FieldNameExact(key: string, name: string)
    ensures FieldName(key) == Some(name) <==>
      IsFieldName(name) && exists written :: TrimsTo(key, written) && Lower(written) == name
  {
    hide TrimsTo, Trim, ByteLength, Lower;
    TrimExact(key, Trim(key));
    if name == Lower(Trim(key)) && forall k | 0 <= k < |name| :: FieldChar(name[k]) {
      AsciiLength(name);
    }
    forall written | TrimsTo(key, written)
      ensures written == Trim(key)
    {
      TrimExact(key, written);
    }
  }

  /** `text` is how the report writes `value`. */
  ghost predicate WrittenAs(value: Json, text: string, compact: Json -> Option<string>) {
    match value
    case Null => false
    case Bool(b) => b && text == "true"
    case Number(written) => text == written
    case Str(s) => TrimsTo(s, text)
    case _ => compact(value) == Some(text)
  }

  /** A value's text is the whole value as written, never cut: it is kept when it is not blank and fits. */
  lemma {:induction false} RecordValueExact(value: Json, text: string, compact: Json -> Option<string>)
    ensures RecordValue(value, compact) == Some(text) <==>
      WrittenAs(value, text, compact) && text != "" && ByteLength(text) <= MAX_VALUE_BYTES
  {
    hide TrimsTo, Trim, ByteLength;
    if value.Str? {
      TrimExact(value.s, text);
    }
  }

  predicate Every(value: Json) { true }

  /** The entry exposes a password: it holds a value, and it or a key inside the value names one. */
  predicate Exposes(entry: Entry) {
    Present(entry.value) && (NamesAPassword(entry.key) || HoldsCredential(entry.value, NamesAPassword, Present))
  }

  /** The field an entry names, when it holds a value. */
  function FieldOf(entry: Entry): Option<string> {
    if Present(entry.value) then FieldName(entry.key) else None
  }

  /** The text of an entry's value, when the entry neither is nor holds a credential. */
  function TextOf(entry: Entry, compact: Json -> Option<string>): Option<string> {
    if !IsCredential(entry.key) && !HoldsCredential(entry.value, IsCredential, Every)
    then RecordValue(entry.value, compact) else None
  }

  // A key and its field name agree on being a credential

  /** Nothing but white space surrounds `s`. */
  lemma {:induction false} SurroundedBlank(before: string, s: string, after: string, k: nat)
    requires Blank(before) && Blank(after)
    requires k < |before| || |before| + |s| <= k < |before + s + after|
    ensures IsWhitespace((before + s + after)[k])
  {
    hide IsWhitespace;
    assert k < |before| ==> (before + s + after)[k] == before[k];
    assert k >= |before| ==> (before + s + after)[k] == after[k - |before| - |s|];
  }

  lemma SliceInside(before: string, s: string, after: string, at: nat, end: nat)
    requires |before| <= at <= end <= |before| + |s|
    ensures (before + s + after)[at..end] == s[at - |before|..end - |before|]
  {
  }

  lemma {:induction false} FoundEnds(s: string, needle: string, at: nat)
    requires needle != "" && FoundAt(s, needle, at)
    ensures s[at] == needle[0] && s[at + |needle| - 1] == needle[|needle| - 1]
  {
    assert s[at..at + |needle|][|needle| - 1] == s[at + |needle| - 1];
  }

  lemma {:induction false} FoundInside(before: string, s: string, after: string, needle: string, at: nat)
    requires needle != "" && Blank(before) && Blank(after)
    requires forall k | 0 <= k < |needle| :: !IsWhitespace(needle[k])
    ensures FoundAt(before + s + after, needle, at) <==> at >= |before| && FoundAt(s, needle, at - |before|)
  {
    hide IsWhitespace, Blank;
    var whole, end := before + s + after, at + |needle|;
    if |before| <= at && end <= |before| + |s| {
      SliceInside(before, s, after, at, end);
    } else if FoundAt(whole, needle, at) {
      FoundEnds(whole, needle, at);
      SurroundedBlank(before, s, after, if at < |before| then at else end - 1);
    }
  }

  lemma {:induction false} MarkedInside(before: string, s: string, after: string)
    requires Blank(before) && Blank(after)
    ensures Marked(before + s + after) <==> Marked(s)
  {
    hide FoundAt, Marked, Blank;
    var whole := before + s + after;
    MarkedExact(whole);
    MarkedExact(s);
    forall k, at: nat | 0 <= k < |CREDENTIAL_MARKERS|
      ensures Marks(whole, CREDENTIAL_MARKERS[k], at) <==>
        at >= |before| && Marks(s, CREDENTIAL_MARKERS[k], at - |before|)
    {
      FoundInside(before, s, after, CREDENTIAL_MARKERS[k], at);
      FoundInside(before, s, after, NOT_A_CREDENTIAL, at);
    }
    if k, at: nat :| 0 <= k < |CREDENTIAL_MARKERS| && Marks(s, CREDENTIAL_MARKERS[k], at) {
      assert Marks(whole, CREDENTIAL_MARKERS[k], at + |before|);
    }
  }

  lemma {:induction false} BlankAlnums(s: string)
    requires Blank(s)
    ensures Alnums(s) == "" && Lower(s) == s
  {
    if s != "" {
      BlankAlnums(s[1..]);
    }
  }

  /** Whether a key is held back can be told from its field name. */
  lemma {:induction false} CredentialByFieldName(key: string)
    requires FieldName(key).Some?
    ensures IsCredential(key) <==> IsCredential(FieldName(key).value)
  {
    hide Trim, Lower, Alnums, Marked, Blank;
    var name := FieldName(key).value;
    var before, after := TrimSplit(key);
    BlankAlnums(before);
    BlankAlnums(after);
    LowerAppend(before + Trim(key), after);
    LowerAppend(before, Trim(key));
    assert Lower(key) == before + name + after;
    AlnumsAppend(before + name, after);
    AlnumsAppend(before, name);
    assert Alnums(Lower(key)) == Alnums(name);
    LowerTwice(Trim(key));
    MarkedInside(before, name, after);
  }

  lemma {:induction false} LowerTwice(s: string)
    ensures Lower(Lower(s)) == Lower(s)
  {
  }
}
