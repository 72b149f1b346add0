/**
 * The management command that normalises the stored `question_type` of every
 * question to one of the canonical keys `mcq`, `short` and `creative`.
 * `Normalize` maps a free-text label, in English or Bengali, to the first key
 * of the table one of whose variants occurs in the stripped, lower-cased
 * label, and otherwise to that stripped, lower-cased label. `Handle` rewrites
 * the questions one by one and counts them.
 */
module NormalizeQuestionTypes {
  import opened Wrappers
  import opened PyStr
  import opened Models

  /** One row of the table: a canonical key and the spellings that select it. */
  datatype Entry = Entry(key: string, variants: seq<string>)

  /** `MAPPING`, in the order the command tries it. */
  const Mapping: seq<Entry> := [
    Entry("mcq", ["mcq", "multiple", "multiple choice", "multiple-choice", "multiplechoice",
                  "বহু", "বহুনির্বাচনী", "বহু-নির্বাচনী", "বহু নির্বাচনি",
                  "multiple choice", "multiple choice "]),
    Entry("short", ["short", "সংক্ষিপ্ত", "সংক্ষেপ", "short answer", "short-answer"]),
    Entry("creative", ["creative", "সৃজন", "সৃজনশীল"])
  ]

  /** The table has three rows keyed `mcq`, `short` and `creative`, in that order, with
      eleven, five and three spellings; each row's first spelling is its own key. */
  lemma MappingShape()
    ensures |Mapping| == 3
    ensures Mapping[0].key == "mcq" && Mapping[1].key == "short" && Mapping[2].key == "creative"
    ensures |Mapping[0].variants| == 11 && |Mapping[1].variants| == 5 && |Mapping[2].variants| == 3
    ensures forall i :: 0 <= i < |Mapping| ==> Mapping[i].variants[0] == Mapping[i].key
  {
  }

  /** `k` is one of the canonical keys of the table. */
  predicate IsKey(k: string) {
    k == "mcq" || k == "short" || k == "creative"
  }

  /** Some variant of the list occurs in `v`. */
  predicate AnyVariantIn(variants: seq<string>, v: string) {
    exists j :: 0 <= j < |variants| && Contains(v, variants[j])
  }

  /** Row `i` is the first row of `table` with a variant occurring in `v`. */
  predicate FirstMatchAt(table: seq<Entry>, v: string, i: int) {
    && 0 <= i < |table|
    && AnyVariantIn(table[i].variants, v)
    && forall j :: 0 <= j < i ==> !AnyVariantIn(table[j].variants, v)
  }

  /** The nested loop over the table: the key of the first row with a variant in `v`. */
  function FirstMatch(table: seq<Entry>, v: string): (r: Option<string>)
    ensures r.None? <==> forall i :: 0 <= i < |table| ==> !AnyVariantIn(table[i].variants, v)
    ensures forall i :: FirstMatchAt(table, v, i) ==> r == Some(table[i].key)
    ensures r.Some? ==> exists i :: FirstMatchAt(table, v, i)
  {
    if table == [] then None
    else if AnyVariantIn(table[0].variants, v) then
      assert FirstMatchAt(table, v, 0);
      Some(table[0].key)
    else
      var r := FirstMatch(table[1..], v);
      assert forall i :: 1 <= i < |table| ==> table[i] == table[1..][i - 1];
      assert forall i :: FirstMatchAt(table, v, i) ==> i > 0 && FirstMatchAt(table[1..], v, i - 1);
      assert forall i :: FirstMatchAt(table[1..], v, i) ==> FirstMatchAt(table, v, i + 1);
      r
  }

  /** `normalize(val)`; `None` stands for Python's `None`. */
  function Normalize(val: Option<string>): (r: string)
    ensures val.None? || val.value == "" ==> r == ""
    ensures r == "" || IsKey(r) || r == Lower(Strip(val.value))
  {
    if val.None? || val.value == "" then ""
    else
      var v := Lower(Strip(val.value));
      match FirstMatch(Mapping, v)
      case Some(k) =>
        FirstMatchIsKey(v);
        k
      case None => v
  }

  /** The first row whose variant occurs in the stripped, lower-cased text decides the
      key; when none does, the stripped, lower-cased text itself is returned. */
  lemma NormalizeFirstMatchWins(val: string, i: int)
    requires val != ""
    ensures FirstMatchAt(Mapping, Lower(Strip(val)), i) ==> Normalize(Some(val)) == Mapping[i].key
    ensures (forall j :: 0 <= j < |Mapping| ==> !AnyVariantIn(Mapping[j].variants, Lower(Strip(val))))
            ==> Normalize(Some(val)) == Lower(Strip(val))
  {
  }

  /** The characters of "বহু" are neither whitespace nor upper-case letters. */
  lemma BahuIsPlain()
    ensures forall k :: 0 <= k < |"বহু"| ==> !IsSpace("বহু"[k]) && LowerChar("বহু"[k]) == "বহু"[k]
  {
  }

  /** Any label containing "বহু" ("many") normalises to `mcq`. */
  lemma BahuGivesMcq(val: string)
    requires Contains(val, "বহু")
    ensures Normalize(Some(val)) == "mcq"
  {
    BahuIsPlain();
    ContainsSurvivesStripLower(val, "বহু");
    var v := Lower(Strip(val));
    assert Mapping[0].variants[5] == "বহু";
    assert AnyVariantIn(Mapping[0].variants, v);
    assert FirstMatchAt(Mapping, v, 0);
  }

  /** Every variant in the list starts with one of the characters `cs`. */
  predicate StartsWithOneOf(variants: seq<string>, cs: set<char>) {
    forall j :: 0 <= j < |variants| ==> variants[j] != [] && variants[j][0] in cs
  }

  /** When no character a variant can start with occurs in `v`, no variant matches. */
  lemma NoVariantByFirstChars(variants: seq<string>, cs: set<char>, v: string)
    requires StartsWithOneOf(variants, cs)
    requires forall c :: c in cs ==> c !in v
    ensures !AnyVariantIn(variants, v)
  {
    forall j | 0 <= j < |variants| ensures !Contains(v, variants[j]) {
      NotContainsByFirstChar(v, variants[j]);
    }
  }

  /** A trimmed, lower-case label normalises to the key of the first row it matches. */
  lemma PlainLabelSelects(k: string, i: int)
    requires k != [] && !IsSpace(k[0]) && !IsSpace(k[|k| - 1])
    requires Lower(k) == k
    requires FirstMatchAt(Mapping, k, i)
    ensures Normalize(Some(k)) == Mapping[i].key
  {
    StripTrimmed(k);
  }

  /** A string occurs in itself. */
  lemma ContainsItself(s: string)
    ensures Contains(s, s)
  {
    assert OccursAt(s, s, 0);
  }

  /** The `mcq` variants start with `m` or `ব`; the `short` ones with `s` or `স`. */
  lemma McqVariantsStart()
    ensures StartsWithOneOf(Mapping[0].variants, {'m', 'ব'})
  {
  }

  lemma ShortVariantsStart()
    ensures StartsWithOneOf(Mapping[1].variants, {'s', 'স'})
  {
  }

  lemma CreativeMissesEarlierRows()
    ensures !AnyVariantIn(Mapping[0].variants, "creative")
    ensures !AnyVariantIn(Mapping[1].variants, "creative")
  {
    McqVariantsStart();
    ShortVariantsStart();
    NoVariantByFirstChars(Mapping[0].variants, {'m', 'ব'}, "creative");
    NoVariantByFirstChars(Mapping[1].variants, {'s', 'স'}, "creative");
  }

  /** `s` is made of lower-case ASCII letters, read off one character at a time. */
  predicate LowerLetters(s: string) {
    s == [] || ('a' <= s[0] <= 'z' && LowerLetters(s[1..]))
  }

  lemma {:induction false} LowerLettersAre(s: string)
    requires LowerLetters(s)
    ensures forall j :: 0 <= j < |s| ==> 'a' <= s[j] <= 'z'
  {
    if s != [] {
      LowerLettersAre(s[1..]);
      assert forall j :: 1 <= j < |s| ==> s[j] == s[1..][j - 1];
    }
  }

  /** A non-empty word of lower-case ASCII letters. */
  lemma PlainWord(k: string)
    requires k != [] && LowerLetters(k)
    ensures !IsSpace(k[0]) && !IsSpace(k[|k| - 1]) && Lower(k) == k
  {
    LowerLettersAre(k);
    LowerCaseIsLower(k);
  }

  /** Each key is the first variant of its own row. */
  lemma KeyMatchesOwnRow(i: nat)
    requires i < |Mapping|
    ensures AnyVariantIn(Mapping[i].variants, Mapping[i].key)
  {
    ContainsItself(Mapping[i].key);
    assert Mapping[i].variants[0] == Mapping[i].key;
  }

  lemma McqIsFixed()
    ensures Normalize(Some("mcq")) == "mcq"
  {
    KeyMatchesOwnRow(0);
    assert FirstMatchAt(Mapping, "mcq", 0);
    PlainWord("mcq");
    PlainLabelSelects("mcq", 0);
  }

  lemma ShortMatchesRow1()
    ensures FirstMatchAt(Mapping, "short", 1)
  {
    McqVariantsStart();
    NoVariantByFirstChars(Mapping[0].variants, {'m', 'ব'}, "short");
    KeyMatchesOwnRow(1);
  }

  lemma ShortIsFixed()
    ensures Normalize(Some("short")) == "short"
  {
    ShortMatchesRow1();
    PlainWord("short");
    PlainLabelSelects("short", 1);
  }

  lemma CreativeMatchesRow2()
    ensures FirstMatchAt(Mapping, "creative", 2)
  {
    CreativeMissesEarlierRows();
    KeyMatchesOwnRow(2);
  }

  lemma CreativeIsFixed()
    ensures Normalize(Some("creative")) == "creative"
  {
    CreativeMatchesRow2();
    PlainWord("creative");
    PlainLabelSelects("creative", 2);
  }

  /** Each key is a fixed point of `Normalize`. */
  lemma KeysAreFixedPoints()
    ensures forall k :: IsKey(k) ==> Normalize(Some(k)) == k
  {
    McqIsFixed();
    ShortIsFixed();
    CreativeIsFixed();
  }

  /** The result never has whitespace at either end. */
  lemma NormalizeIsTrimmed(val: Option<string>)
    ensures Strip(Normalize(val)) == Normalize(val)
  {
    var r := Normalize(val);
    if IsKey(r) {
      KeyIsTrimmed(r);
    } else if r != "" {
      assert r == Lower(Strip(val.value));
      LowerOfStripped(val.value);
    }
  }

  lemma KeyIsTrimmed(k: string)
    requires IsKey(k)
    ensures Strip(k) == k
  {
    StripTrimmed(k);
  }

  /** Whatever row matches first, its key is one of the canonical keys. */
  lemma FirstMatchIsKey(v: string)
    ensures FirstMatch(Mapping, v).Some? ==> IsKey(FirstMatch(Mapping, v).value)
  {
    if FirstMatch(Mapping, v).Some? {
      var i :| FirstMatchAt(Mapping, v, i);
      assert i == 0 || i == 1 || i == 2;
    }
  }

  /** A stripped, lower-cased label that matches no row is returned unchanged, and
      normalises to itself. */
  lemma FallbackIsFixed(s: string)
    requires FirstMatch(Mapping, Lower(Strip(s))).None?
    ensures Normalize(Some(Lower(Strip(s)))) == Lower(Strip(s))
  {
    LowerOfStripped(s);
  }

  /** Normalising twice is normalising once: a key maps to itself, and the fallback text
      already matches no variant. */
  lemma NormalizeIdempotent(val: Option<string>)
    ensures Normalize(Some(Normalize(val))) == Normalize(val)
  {
    if val.Some? && val.value != "" {
      var v := Lower(Strip(val.value));
      FirstMatchIsKey(v);
      if FirstMatch(Mapping, v).Some? {
        KeysAreFixedPoints();
      } else {
        FallbackIsFixed(val.value);
      }
    }
  }

  // ---------------------------------------------------------------------------
  // The `handle` loop

  /** The loop rewrites a question when the normalised stripped type is non-empty and
      differs from the stripped type. A blank type, or one that is already a canonical
      key, is never rewritten. */
  function NeedsRewrite(q: Question): (r: bool)
    ensures Strip(q.questionType) == "" ==> !r
    ensures IsKey(Strip(q.questionType)) ==> !r
    ensures r ==> Normalize(Some(Strip(q.questionType))) != Strip(q.questionType)
  {
    KeysAreFixedPoints();
    var oldType := Strip(q.questionType);
    var newType := Normalize(Some(oldType));
    newType != "" && newType != oldType
  }

  /** What one iteration of the loop leaves in the row: only `question_type` can change,
      and it changes exactly when the row needs a rewrite. */
  function Rewritten(q: Question): (r: Question)
    ensures r == q.(questionType := r.questionType)
    ensures r != q <==> NeedsRewrite(q)
    ensures NeedsRewrite(q) ==> r.questionType == Normalize(Some(Strip(q.questionType)))
  {
    var oldType := Strip(q.questionType);
    var newType := Normalize(Some(oldType));
    if newType != "" && newType != oldType then
      assert newType != q.questionType by {
        NormalizeIsTrimmed(Some(oldType));
      }
      q.(questionType := newType)
    else q
  }

  /** The table after the loop has visited every row. */
  function RewrittenAll(qs: seq<Question>): (r: seq<Question>)
    ensures |r| == |qs|
    ensures forall i :: 0 <= i < |qs| ==> r[i] == Rewritten(qs[i])
  {
    seq(|qs|, i requires 0 <= i < |qs| => Rewritten(qs[i]))
  }

  /** Which rows of `qs` the loop rewrites. */
  function RewriteFlags(qs: seq<Question>): (r: seq<bool>)
    ensures |r| == |qs|
    ensures forall i :: 0 <= i < |qs| ==> r[i] == NeedsRewrite(qs[i])
  {
    seq(|qs|, i requires 0 <= i < |qs| => NeedsRewrite(qs[i]))
  }

  /** How many of the flags are set. */
  function CountTrue(bs: seq<bool>): (n: nat)
    ensures n <= |bs|
  {
    if bs == [] then 0
    else CountTrue(bs[..|bs| - 1]) + (if bs[|bs| - 1] then 1 else 0)
  }

  /** How many rows of `qs` the loop rewrites. */
  function CountRewrites(qs: seq<Question>): (n: nat)
    ensures n <= |qs|
  {
    CountTrue(RewriteFlags(qs))
  }

  /** A row the loop has written needs no further rewrite. */
  lemma RewrittenIsStable(q: Question)
    ensures !NeedsRewrite(Rewritten(q))
  {
    if NeedsRewrite(q) {
      var newType := Normalize(Some(Strip(q.questionType)));
      NormalizeIsTrimmed(Some(Strip(q.questionType)));
      NormalizeIdempotent(Some(Strip(q.questionType)));
      assert Strip(newType) == newType;
    }
  }

  /** Running the command a second time changes nothing and reports no update. */
  lemma HandleSecondRunIsNoOp(qs: seq<Question>)
    ensures RewrittenAll(RewrittenAll(qs)) == RewrittenAll(qs)
    ensures CountRewrites(RewrittenAll(qs)) == 0
  {
    var once := RewrittenAll(qs);
    forall i | 0 <= i < |qs| ensures !NeedsRewrite(once[i]) {
      RewrittenIsStable(qs[i]);
    }
    NoRewriteCountsZero(once);
  }

  lemma NoRewriteCountsZero(qs: seq<Question>)
    requires forall i :: 0 <= i < |qs| ==> !NeedsRewrite(qs[i])
    ensures CountRewrites(qs) == 0
  {
    NoFlagCountsZero(RewriteFlags(qs));
  }

  lemma {:induction false} NoFlagCountsZero(bs: seq<bool>)
    requires forall i :: 0 <= i < |bs| ==> !bs[i]
    ensures CountTrue(bs) == 0
  {
    if bs != [] {
      NoFlagCountsZero(bs[..|bs| - 1]);
    }
  }

  /** After `i` steps of a copy, the first `i` elements of `cur` come from `image` and
      the others are still those of `start`. */
  ghost predicate CopiedUpTo<T>(image: seq<T>, start: seq<T>, cur: seq<T>, i: nat) {
    i <= |start| == |image| && cur == image[..i] + start[i..]
  }

  lemma CopiedNothing<T>(image: seq<T>, start: seq<T>)
    requires |image| == |start|
    ensures CopiedUpTo(image, start, start, 0)
  {
    assert image[..0] == [] && start[0..] == start;
  }

  /** Replacing element `i` of a partly copied sequence copies one element more. */
  lemma CopyStep<T>(image: seq<T>, start: seq<T>, cur: seq<T>, i: nat)
    requires CopiedUpTo(image, start, cur, i) && i < |start|
    ensures |cur| == |start| && cur[i] == start[i]
    ensures CopiedUpTo(image, start, cur[i := image[i]], i + 1)
  {
    assert cur[i] == start[i..][0];
    var lhs := cur[i := image[i]];
    var rhs := image[..i + 1] + start[i + 1..];
    forall k | 0 <= k < |start| ensures lhs[k] == rhs[k] {
      if k > i {
        assert lhs[k] == start[i..][k - i] && rhs[k] == start[i + 1..][k - i - 1];
      }
    }
  }

  lemma CopiedAll<T>(image: seq<T>, start: seq<T>, cur: seq<T>)
    requires CopiedUpTo(image, start, cur, |start|)
    ensures cur == image
  {
    assert image[..|start|] == image && start[|start|..] == [];
  }

  /** Counting one flag more. */
  lemma CountStep(bs: seq<bool>, i: nat)
    requires i < |bs|
    ensures CountTrue(bs[..i + 1]) == CountTrue(bs[..i]) + if bs[i] then 1 else 0
  {
    assert bs[..i + 1][..i] == bs[..i];
  }

  /** Saving row `i`: its normalised type is written back when it differs from the
      stripped one. */
  method SaveRow(store: Store, i: nat) returns (wrote: bool)
    requires store.Valid() && i < |store.questions|
    modifies store`questions
    ensures store.Valid()
    ensures store.questions == old(store.questions)[i := Rewritten(old(store.questions)[i])]
    ensures wrote == NeedsRewrite(old(store.questions)[i])
  {
    var q := store.questions[i];
    var r := Rewritten(q);
    wrote := r != q;
    if wrote {
      store.SetQuestionType(i, r.questionType);
    }
  }

  /** The body of the loop for row `i`: save the row and count it when it is saved.
      `start` is the table before the loop, of which the first `i` rows are done;
      `image` and `flags` are the table and the flags the loop heads for. */
  method RewriteRow(store: Store, i: nat, changed: nat, ghost start: seq<Question>,
                    ghost image: seq<Question>, ghost flags: seq<bool>) returns (counted: nat)
    requires image == RewrittenAll(start) && flags == RewriteFlags(start)
    requires store.Valid() && CopiedUpTo(image, start, store.questions, i) && i < |start|
    requires changed == CountTrue(flags[..i])
    modifies store`questions
    ensures store.Valid()
    ensures CopiedUpTo(image, start, store.questions, i + 1)
    ensures counted == CountTrue(flags[..i + 1])
  {
    CopyStep(image, start, store.questions, i);
    CountStep(flags, i);
    var wrote := SaveRow(store, i);
    counted := if wrote then changed + 1 else changed;
  }

  /** `handle`: visits every question once, writes back the normalised type of those that
      need it, and reports how many it visited and how many it rewrote. */
  method Handle(store: Store) returns (total: nat, changed: nat)
    requires store.Valid()
    modifies store`questions
    ensures store.Valid()
    ensures store.questions == RewrittenAll(old(store.questions))
    ensures total == |old(store.questions)|
    ensures changed == CountRewrites(old(store.questions))
  {
    ghost var start := store.questions;
    ghost var image, flags := RewrittenAll(start), RewriteFlags(start);
    total, changed := 0, 0;
    CopiedNothing(image, start);
    while total < |store.questions|
      invariant store.Valid()
      invariant total <= |start| == |store.questions|
      invariant CopiedUpTo(image, start, store.questions, total)
      invariant changed == CountTrue(flags[..total])
      decreases |start| - total
    {
      changed := RewriteRow(store, total, changed, start, image, flags);
      total := total + 1;
    }
    CopiedAll(image, start, store.questions);
    assert flags[..total] == flags;
  }
}
