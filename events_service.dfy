/** The pure rules of the events service: search-text normalisation, slugs, paging,
    the search filter handed to the database, the defaults of a new event, who is
    notified about it, and which normalised fields an update recomputes. The database
    itself is a value here: an event row, the list of user ids. */
module Events {
  import opened Wrappers
  import opened Strings
  import opened Unicode

  // ---------------------------------------------------------------------------
  // normalizeText

  /** `normalizeText`: the empty or missing text gives '', any other text is
      lower-cased, decomposed and stripped of its combining marks. */
  function NormalizeText(text: Option<string>): string {
    if !Truthy(text) then [] else Fold(text.value)
  }

  /** The normalised text is in folded form (lower-case, no accents), holds a space
      exactly when the text does, and normalising it again changes nothing. */
  lemma NormalizeTextFolds(text: Option<string>)
    ensures !Truthy(text) ==> NormalizeText(text) == []
    ensures Folded(NormalizeText(text))
    ensures Truthy(text) ==> (' ' in NormalizeText(text) <==> ' ' in text.value)
    ensures NormalizeText(Some(NormalizeText(text))) == NormalizeText(text)
  {
    if Truthy(text) {
      FoldFolded(text.value);
      FoldIdempotent(text.value);
    }
  }

  // ---------------------------------------------------------------------------
  // generateSlug

  /** `replace(/[^\w\s-]/g, '')`. */
  function KeepSlugChars(s: string): string
    decreases |s|
  {
    if s == [] then []
    else if IsWordChar(s[0]) || IsSpace(s[0]) || s[0] == '-' then [s[0]] + KeepSlugChars(s[1..])
    else KeepSlugChars(s[1..])
  }

  /** The filter keeps only characters of its input that are word characters, white
      space or '-'. */
  lemma {:induction false} KeepSlugCharsKeeps(s: string)
    ensures forall c | c in KeepSlugChars(s) :: c in s && (IsWordChar(c) || IsSpace(c) || c == '-')
    decreases |s|
  {
    if s != [] {
      KeepSlugCharsKeeps(s[1..]);
    }
  }

  predicate IsHyphen(c: char) { c == '-' }

  /** `replace(/p+/g, '-')` for a one-character class `p`: each maximal run of
      characters in `p` becomes a single '-'. `inRun` says that the character before
      `s` was in a run. */
  function ReplaceRuns(s: string, p: char -> bool, inRun: bool): string
    decreases |s|
  {
    if s == [] then []
    else if p(s[0]) then (if inRun then [] else ['-']) + ReplaceRuns(s[1..], p, true)
    else [s[0]] + ReplaceRuns(s[1..], p, false)
  }

  /** After the replacement every character is '-' or a character of the input outside
      the run class. */
  lemma {:induction false} ReplaceRunsChars(s: string, p: char -> bool, inRun: bool)
    ensures forall c | c in ReplaceRuns(s, p, inRun) :: c == '-' || (c in s && !p(c))
    decreases |s|
  {
    if s != [] {
      ReplaceRunsChars(s[1..], p, p(s[0]));
    }
  }

  /** `trimStart()`. */
  function TrimStart(s: string): string
    decreases |s|
  {
    if s != [] && IsSpace(s[0]) then TrimStart(s[1..]) else s
  }

  /** `trimEnd()`. */
  function TrimEnd(s: string): string
    decreases |s|
  {
    if s != [] && IsSpace(s[|s| - 1]) then TrimEnd(s[..|s| - 1]) else s
  }

  /** `trim()`: white space and line terminators off both ends. */
  function Trim(s: string): string {
    TrimEnd(TrimStart(s))
  }

  /** `generateSlug`: fold, drop what is not a word character, white space or '-',
      turn each white-space run into '-', collapse runs of '-', trim. */
  function GenerateSlug(title: string): string {
    Trim(Hyphenated(title))
  }

  /** The slug before `trim`. */
  function Hyphenated(title: string): string {
    ReplaceRuns(ReplaceRuns(KeepSlugChars(Fold(title)), IsSpace, false), IsHyphen, false)
  }

  predicate IsSlugChar(c: char) {
    ('a' <= c <= 'z') || ('0' <= c <= '9') || c == '_' || c == '-'
  }

  predicate NoDoubleHyphen(s: string) {
    forall i :: 0 <= i < |s| - 1 ==> s[i] != '-' || s[i + 1] != '-'
  }

  /** What a slug looks like: lower-case ASCII letters, digits, '_' and '-', never
      two '-' in a row (and so no white space at all). */
  predicate IsSlug(s: string) {
    (forall i :: 0 <= i < |s| ==> IsSlugChar(s[i])) && NoDoubleHyphen(s)
  }

  /** Collapsing runs of '-' leaves no two in a row, and none at the start when the
      text before already ended in one. */
  lemma {:induction false} CollapseNoDoubles(s: string, inRun: bool)
    ensures NoDoubleHyphen(ReplaceRuns(s, IsHyphen, inRun))
    ensures inRun && ReplaceRuns(s, IsHyphen, inRun) != [] ==> ReplaceRuns(s, IsHyphen, inRun)[0] != '-'
    decreases |s|
  {
    if s != [] {
      var tail := ReplaceRuns(s[1..], IsHyphen, IsHyphen(s[0]));
      CollapseNoDoubles(s[1..], IsHyphen(s[0]));
      var r := ReplaceRuns(s, IsHyphen, inRun);
      if IsHyphen(s[0]) {
        assert r == (if inRun then [] else ['-']) + tail;
      } else {
        assert r == [s[0]] + tail;
      }
    }
  }

  lemma TrimFixes(s: string)
    requires forall i :: 0 <= i < |s| ==> !IsSpace(s[i])
    ensures Trim(s) == s
  {
  }

  /** Whatever the title, the slug is made of slug characters and never holds two
      '-' in a row; `trim` has nothing left to remove. */
  lemma SlugShape(title: string)
    ensures IsSlug(GenerateSlug(title))
    ensures GenerateSlug(title) == Hyphenated(title)
  {
    var f := Fold(title);
    FoldFolded(title);
    var k := KeepSlugChars(f);
    KeepSlugCharsKeeps(f);
    forall c | c in k
      ensures IsSlugChar(c) || IsSpace(c)
    {
      assert FoldedChar(c);
    }
    var h := ReplaceRuns(k, IsSpace, false);
    ReplaceRunsChars(k, IsSpace, false);
    assert forall c | c in h :: IsSlugChar(c);
    var r := ReplaceRuns(h, IsHyphen, false);
    ReplaceRunsChars(h, IsHyphen, false);
    assert forall c | c in r :: IsSlugChar(c);
    CollapseNoDoubles(h, false);
    TrimFixes(r);
  }

  lemma SlugCharFolded(c: char)
    requires IsSlugChar(c)
    ensures FoldedChar(c)
  {
    assert Accent(c) == None;
  }

  lemma {:induction false} KeepSlugCharsFixes(s: string)
    requires forall i :: 0 <= i < |s| ==> IsSlugChar(s[i])
    ensures KeepSlugChars(s) == s
    decreases |s|
  {
    if s != [] {
      KeepSlugCharsFixes(s[1..]);
    }
  }

  lemma {:induction false} ReplaceRunsFixes(s: string, p: char -> bool, inRun: bool)
    requires forall i :: 0 <= i < |s| ==> s[i] == '-' || !p(s[i])
    requires forall i :: 0 <= i < |s| - 1 ==> !p(s[i]) || !p(s[i + 1])
    requires inRun && s != [] ==> !p(s[0])
    ensures ReplaceRuns(s, p, inRun) == s
    decreases |s|
  {
    if s != [] {
      ReplaceRunsFixes(s[1..], p, p(s[0]));
    }
  }

  /** Every stage of the pipeline leaves a slug as it is. */
  lemma SlugFixedPoint(s: string)
    requires IsSlug(s)
    ensures Hyphenated(s) == s
  {
    forall i | 0 <= i < |s|
      ensures FoldedChar(s[i])
    {
      SlugCharFolded(s[i]);
    }
    FoldFixes(s);
    assert Fold(s) == s;
    KeepSlugCharsFixes(s);
    assert KeepSlugChars(s) == s;
    ReplaceRunsFixes(s, IsSpace, false);
    assert ReplaceRuns(s, IsSpace, false) == s;
    ReplaceRunsFixes(s, IsHyphen, false);
  }

  /** A slug is its own slug. */
  lemma SlugIdempotent(title: string)
    ensures GenerateSlug(GenerateSlug(title)) == GenerateSlug(title)
  {
    var s := GenerateSlug(title);
    SlugShape(title);
    SlugFixedPoint(s);
    TrimFixes(s);
  }

  lemma FoldSpace()
    ensures Fold([' ']) == [' ']
  {
    assert ToLowerCase([' ']) == [' '];
    assert Nfd([' ']) == Decompose(' ') + Nfd([]);
  }

  lemma {:induction false} KeepSlugCharsAppend(a: string, b: string)
    ensures KeepSlugChars(a + b) == KeepSlugChars(a) + KeepSlugChars(b)
    decreases |a|
  {
    if a == [] {
      assert a + b == b;
    } else {
      assert (a + b)[0] == a[0] && (a + b)[1..] == a[1..] + b;
      KeepSlugCharsAppend(a[1..], b);
    }
  }

  /** A text ending in a run ends, once the runs are replaced, in '-'. */
  lemma {:induction false} RunEndsInHyphen(s: string, p: char -> bool, inRun: bool)
    requires s != [] && p(s[|s| - 1])
    ensures ReplaceRuns(s, p, inRun) == [] || ReplaceRuns(s, p, inRun)[|ReplaceRuns(s, p, inRun)| - 1] == '-'
    ensures !inRun ==> ReplaceRuns(s, p, inRun) != []
    decreases |s|
  {
    var r := ReplaceRuns(s, p, inRun);
    var tail := ReplaceRuns(s[1..], p, p(s[0]));
    if |s| == 1 {
      assert tail == [];
    } else {
      assert s[1..][|s[1..]| - 1] == s[|s| - 1];
      RunEndsInHyphen(s[1..], p, p(s[0]));
    }
    if p(s[0]) {
      assert r == (if inRun then [] else ['-']) + tail;
    } else {
      assert r == [s[0]] + tail;
    }
  }

  /** `trim` runs last, after every white-space run has become '-', so a title that
      begins with a space has a slug that begins with '-'. */
  lemma SlugKeepsLeadingHyphen(title: string)
    requires |title| > 0 && title[0] == ' '
    ensures GenerateSlug(title) != [] && GenerateSlug(title)[0] == '-'
  {
    SlugShape(title);
    HyphenatedStartsWithHyphen(title);
  }

  lemma HyphenatedStartsWithHyphen(title: string)
    requires |title| > 0 && title[0] == ' '
    ensures Hyphenated(title) != [] && Hyphenated(title)[0] == '-'
  {
    FoldSpace();
    assert title == [' '] + title[1..];
    FoldAppend([' '], title[1..]);
    var f := Fold(title);
    assert f[0] == ' ';
    var k := KeepSlugChars(f);
    assert k == [' '] + KeepSlugChars(f[1..]);
    var h := ReplaceRuns(k, IsSpace, false);
    assert h == ['-'] + ReplaceRuns(k[1..], IsSpace, true);
    var r := ReplaceRuns(h, IsHyphen, false);
    assert r == ['-'] + ReplaceRuns(h[1..], IsHyphen, true);
  }

  /** A trailing space survives folding and the character filter. */
  lemma KeptEndsInSpace(title: string)
    requires |title| > 0 && title[|title| - 1] == ' '
    ensures var k := KeepSlugChars(Fold(title)); k != [] && k[|k| - 1] == ' '
  {
    FoldSpace();
    var front := title[..|title| - 1];
    assert title == front + [' '];
    FoldAppend(front, [' ']);
    KeepSlugCharsAppend(Fold(front), [' ']);
    assert KeepSlugChars([' ']) == [' '] + KeepSlugChars([]);
  }

  /** Both replacements keep a final white-space character as a final '-'. */
  lemma RunsEndInHyphen(k: string)
    requires k != [] && IsSpace(k[|k| - 1])
    ensures var r := ReplaceRuns(ReplaceRuns(k, IsSpace, false), IsHyphen, false);
      r != [] && r[|r| - 1] == '-'
  {
    RunEndsInHyphen(k, IsSpace, false);
    var h := ReplaceRuns(k, IsSpace, false);
    assert h != [] && IsHyphen(h[|h| - 1]);
    RunEndsInHyphen(h, IsHyphen, false);
  }

  lemma HyphenatedEndsWithHyphen(title: string)
    requires |title| > 0 && title[|title| - 1] == ' '
    ensures Hyphenated(title) != [] && Hyphenated(title)[|Hyphenated(title)| - 1] == '-'
  {
    KeptEndsInSpace(title);
    RunsEndInHyphen(KeepSlugChars(Fold(title)));
  }

  /** Likewise a title that ends with a space has a slug that ends with '-'. */
  lemma SlugKeepsTrailingHyphen(title: string)
    requires |title| > 0 && title[|title| - 1] == ' '
    ensures GenerateSlug(title) != [] && GenerateSlug(title)[|GenerateSlug(title)| - 1] == '-'
  {
    SlugShape(title);
    HyphenatedEndsWithHyphen(title);
  }

  // ---------------------------------------------------------------------------
  // findAll: paging and meta

  /** `filters?.page ? Number(filters.page) : 1`: a missing page or page 0 means 1. */
  function Page(page: Option<int>): int {
    if page.Some? && page.value != 0 then page.value else 1
  }

  /** `filters?.limit ? Number(filters.limit) : 10`. */
  function Limit(limit: Option<int>): int {
    if limit.Some? && limit.value != 0 then limit.value else 10
  }

  /** `(page - 1) * limit` rows are skipped. */
  function Skip(page: int, limit: int): int {
    (page - 1) * limit
  }

  /** `Math.ceil(total / limit)`, with the real quotient rounded up. */
  function TotalPages(total: nat, limit: int): int
    requires limit != 0
  {
    var t: int := total;
    if limit > 0 then -((-t) / limit) else -(t / (-limit))
  }

  /** The defaults, and that the limit in force is never 0. */
  lemma PagingDefaults(page: Option<int>, limit: Option<int>)
    ensures Page(None) == 1 && Page(Some(0)) == 1
    ensures Limit(None) == 10 && Limit(Some(0)) == 10
    ensures Limit(limit) != 0
    ensures Skip(Page(None), Limit(limit)) == 0
    ensures Skip(Page(page) + 1, Limit(limit)) == Skip(Page(page), Limit(limit)) + Limit(limit)
  {
  }

  /** `totalPages` is `total / limit` rounded up: the least whole number of pages of
      `limit` rows that hold `total` rows (for a negative limit, the same bounds with
      the inequalities turned round). */
  lemma TotalPagesCeiling(total: nat, limit: int)
    requires limit != 0
    ensures limit > 0 ==> (TotalPages(total, limit) - 1) * limit < total <= TotalPages(total, limit) * limit
    ensures limit > 0 ==> TotalPages(total, limit) >= 0 && (TotalPages(total, limit) == 0 <==> total == 0)
    ensures limit < 0 ==> TotalPages(total, limit) * limit <= total < (TotalPages(total, limit) - 1) * limit
  {
    var r := TotalPages(total, limit);
    if limit > 0 {
      var t: int := total;
      var q := (-t) / limit;
      assert -t == q * limit + (-t) % limit;
      assert r * limit == -(q * limit);
      assert (r - 1) * limit == r * limit - limit;
    } else {
      var m := -limit;
      var q := total / m;
      assert total == q * m + total % m;
      assert r * limit == q * m;
      assert (r - 1) * limit == q * m + m;
    }
  }

  datatype Meta = Meta(total: nat, page: int, limit: int, totalPages: int)

  datatype Filters = Filters(
    category: Option<string>,
    status: Option<EventStatus>,
    search: Option<string>,
    page: Option<int>,
    limit: Option<int>)

  /** The `meta` of `findAll`: it echoes the total and the page and limit in force,
      and the page count covers the total. */
  function FindAllMeta(filters: Filters, total: nat): (m: Meta)
    ensures m.total == total && m.page == Page(filters.page) && m.limit == Limit(filters.limit)
    ensures m.limit > 0 ==> (m.totalPages - 1) * m.limit < total <= m.totalPages * m.limit
    ensures m.limit > 0 ==> (total > 0 <==> m.totalPages > 0)
  {
    var limit := Limit(filters.limit);
    TotalPagesCeiling(total, limit);
    Meta(total, Page(filters.page), limit, TotalPages(total, limit))
  }

  /** With a positive limit the last page starts inside the result and the page after
      it starts past the end. */
  lemma LastPageHoldsRows(total: nat, limit: int)
    requires limit > 0 && total > 0
    ensures 0 <= Skip(TotalPages(total, limit), limit) < total <= Skip(TotalPages(total, limit) + 1, limit)
  {
    TotalPagesCeiling(total, limit);
  }

  // ---------------------------------------------------------------------------
  // findAll: the search filter

  /** `normalizeText(search).split(' ').filter(Boolean)`. */
  function SearchWords(search: Option<string>): seq<string> {
    NonEmpty(Split(NormalizeText(search), ' '))
  }

  /** The search words are the non-empty, space-free pieces of the normalised search,
      each in folded form; a missing or empty search has none. */
  lemma SearchWordsShape(search: Option<string>)
    ensures !Truthy(search) ==> SearchWords(search) == []
    ensures forall w :: w in SearchWords(search) ==>
      w != [] && ' ' !in w && Contains(NormalizeText(search), w)
    ensures forall w :: w in Split(NormalizeText(search), ' ') && w != [] ==> w in SearchWords(search)
  {
    var words := SearchWords(search);
    if !Truthy(search) {
      assert Split([], ' ') == [[]];
    }
    SplitAvoids(NormalizeText(search), ' ');
    forall w | w in words
      ensures ' ' !in w && Contains(NormalizeText(search), w)
    {
      SplitFragmentsOccur(NormalizeText(search), ' ', w);
    }
  }

  datatype EventStatus = Draft | Published | OtherStatus(name: string)

  /** One alternative of an OR-clause. */
  datatype Condition = TitleContains(word: string) | DescriptionContains(word: string)

  /** The `where` object: an optional category, an optional status, and an optional
      AND of OR-clauses. */
  datatype Where = Where(category: Option<string>, status: Option<EventStatus>, and: Option<seq<seq<Condition>>>)

  /** The columns of a stored event that a `where` can test. */
  datatype EventRow = EventRow(category: string, status: EventStatus, titleNormalized: string, descriptionNormalized: string)

  predicate Holds(c: Condition, e: EventRow) {
    match c
    case TitleContains(w) => Contains(e.titleNormalized, w)
    case DescriptionContains(w) => Contains(e.descriptionNormalized, w)
  }

  /** How the database reads a `where`: every field set must match, and every
      clause of the AND must have an alternative that holds. */
  predicate Matches(where: Where, e: EventRow) {
    (where.category.Some? ==> e.category == where.category.value)
    && (where.status.Some? ==> e.status == where.status.value)
    && (where.and.Some? ==> AllClausesHold(where.and.value, e))
  }

  /** An AND of OR-clauses. */
  predicate AllClausesHold(clauses: seq<seq<Condition>>, e: EventRow) {
    forall i :: 0 <= i < |clauses| ==> SomeHolds(clauses[i], e)
  }

  /** An OR-clause. */
  predicate SomeHolds(clause: seq<Condition>, e: EventRow) {
    exists j :: 0 <= j < |clause| && Holds(clause[j], e)
  }

  /** The rows `findAll` promises: the category when one is given, the status when one
      is given, and each search word in the normalised title or description. */
  predicate Selected(filters: Filters, e: EventRow) {
    (Truthy(filters.category) ==> e.category == filters.category.value)
    && (filters.status.Some? ==> e.status == filters.status.value)
    && (forall w :: w in SearchWords(filters.search) ==> WordFound(w, e))
  }

  predicate WordFound(w: string, e: EventRow) {
    Contains(e.titleNormalized, w) || Contains(e.descriptionNormalized, w)
  }

  /** The OR-clause of one search word. */
  function Clause(w: string): seq<Condition> {
    [TitleContains(w), DescriptionContains(w)]
  }

  /** `searchWords.map(...)`. */
  function Clauses(words: seq<string>): (r: seq<seq<Condition>>)
    ensures |r| == |words|
  {
    seq(|words|, i requires 0 <= i < |words| => Clause(words[i]))
  }

  /** The AND of the clauses holds exactly when every word is found. */
  lemma ClausesHold(words: seq<string>, e: EventRow)
    ensures AllClausesHold(Clauses(words), e) <==> forall w :: w in words ==> WordFound(w, e)
  {
    var clauses := Clauses(words);
    if AllClausesHold(clauses, e) {
      forall i | 0 <= i < |words|
        ensures WordFound(words[i], e)
      {
        assert clauses[i] == Clause(words[i]);
        var j :| 0 <= j < |clauses[i]| && Holds(clauses[i][j], e);
      }
      forall w | w in words
        ensures WordFound(w, e)
      {
        var i :| 0 <= i < |words| && words[i] == w;
      }
    }
    if forall w :: w in words ==> WordFound(w, e) {
      forall i | 0 <= i < |clauses|
        ensures SomeHolds(clauses[i], e)
      {
        assert clauses[i] == Clause(words[i]);
        assert WordFound(words[i], e);
        if Contains(e.titleNormalized, words[i]) {
          assert Holds(clauses[i][0], e);
        } else {
          assert Holds(clauses[i][1], e);
        }
      }
      assert AllClausesHold(clauses, e);
    }
  }

  /** The `where` of `findAll`, built field by field. */
  method BuildWhere(filters: Filters) returns (where: Where)
    ensures where.category.Some? <==> Truthy(filters.category)
    ensures where.status == filters.status
    ensures where.and.Some? <==> Truthy(filters.search)
    ensures where.and.Some? ==> where.and.value == Clauses(SearchWords(filters.search))
    ensures forall e :: Matches(where, e) <==> Selected(filters, e)
  {
    where := Where(None, None, None);
    if Truthy(filters.category) {
      where := where.(category := filters.category);
    }
    if filters.status.Some? {
      where := where.(status := filters.status);
    }
    if Truthy(filters.search) {
      var words := SearchWords(filters.search);
      where := where.(and := Some(Clauses(words)));
    }
    SearchWordsShape(filters.search);
    forall e
      ensures Matches(where, e) <==> Selected(filters, e)
    {
      ClausesHold(SearchWords(filters.search), e);
    }
  }

  /** Searching with a phrase found in a title, compared in any case and with or
      without accents, finds that title: every search word is in its normalised form. */
  lemma SearchFindsTitle(search: string, title: string)
    requires Contains(Fold(title), Fold(search))
    ensures forall w :: w in SearchWords(Some(search)) ==> Contains(NormalizeText(Some(title)), w)
  {
    SearchWordsShape(Some(search));
    if search != [] {
      forall w | w in SearchWords(Some(search))
        ensures Contains(NormalizeText(Some(title)), w)
      {
        ContainsTransitive(Fold(title), Fold(search), w);
      }
    }
  }

  // ---------------------------------------------------------------------------
  // create

  datatype CreateEventDto = CreateEventDto(
    title: string,
    description: Option<string>,
    category: string,
    status: Option<EventStatus>)

  /** The stored columns of an event that these rules touch. */
  datatype EventData = EventData(
    title: string,
    description: Option<string>,
    category: string,
    slug: string,
    createdById: string,
    status: EventStatus,
    titleNormalized: string,
    descriptionNormalized: string)

  /** The normalised columns agree with the title and description they index. */
  predicate Consistent(e: EventData) {
    e.titleNormalized == NormalizeText(Some(e.title))
    && e.descriptionNormalized == NormalizeText(e.description)
  }

  /** The `data` of `create`: the DTO's fields, the slug of the title, the creator,
      the status (DRAFT when none is given) and the two normalised columns. */
  function CreateData(dto: CreateEventDto, userId: string): EventData {
    EventData(
      dto.title, dto.description, dto.category, GenerateSlug(dto.title), userId,
      dto.status.GetOr(Draft),
      NormalizeText(Some(dto.title)), NormalizeText(dto.description))
  }

  /** A new event is indexed consistently, carries a well-formed slug and its creator,
      and is a draft unless the DTO names another status. */
  lemma CreateDataShape(dto: CreateEventDto, userId: string)
    ensures Consistent(CreateData(dto, userId))
    ensures IsSlug(CreateData(dto, userId).slug)
    ensures CreateData(dto, userId).createdById == userId
    ensures dto.status.None? ==> CreateData(dto, userId).status == Draft
    ensures dto.status.Some? ==> CreateData(dto, userId).status == dto.status.value
  {
    SlugShape(dto.title);
  }

  /** The users told about a new event: nobody unless it is published, and then
      every user but its creator, in the order the users are listed. */
  function Recipients(userIds: seq<string>, creatorId: string, status: EventStatus): (r: seq<string>)
    ensures forall id :: id in r <==> status == Published && id in userIds && id != creatorId
    ensures |r| <= |userIds|
    decreases |userIds|
  {
    if status != Published || userIds == [] then []
    else
      var rest := Recipients(userIds[1..], creatorId, status);
      assert forall id :: id in userIds <==> id == userIds[0] || id in userIds[1..];
      if userIds[0] != creatorId then [userIds[0]] + rest else rest
  }

  datatype Notification = Notification(userId: string, title: string, message: string, kind: string)

  const AnnouncementTitle := "Novo Evento Dispon\U{ED}vel"
  const AnnouncementKind := "EVENT_REMINDER"

  function AnnouncementMessage(title: string): string {
    "Um novo evento \"" + title + "\" foi publicado!"
  }

  /** The notifications `create` sends for a stored event. */
  function Notifications(userIds: seq<string>, event: EventData): seq<Notification> {
    var recipients := Recipients(userIds, event.createdById, event.status);
    seq(|recipients|, i requires 0 <= i < |recipients| =>
      Notification(recipients[i], AnnouncementTitle, AnnouncementMessage(event.title), AnnouncementKind))
  }

  /** A published event is announced to every other user, with the fixed title, type
      and message, and never to its creator; any other status announces nothing. */
  lemma NotifiesOthersOnPublish(userIds: seq<string>, event: EventData)
    ensures event.status != Published ==> Notifications(userIds, event) == []
    ensures forall n :: n in Notifications(userIds, event) ==>
      n.userId in userIds && n.userId != event.createdById
      && n.title == AnnouncementTitle && n.kind == AnnouncementKind
      && n.message == AnnouncementMessage(event.title)
    ensures event.status == Published ==>
      forall id :: id in userIds && id != event.createdById ==>
        exists n :: n in Notifications(userIds, event) && n.userId == id
  {
    var recipients := Recipients(userIds, event.createdById, event.status);
    var sent := Notifications(userIds, event);
    if event.status == Published {
      forall id | id in userIds && id != event.createdById
        ensures exists n :: n in sent && n.userId == id
      {
        var i :| 0 <= i < |recipients| && recipients[i] == id;
        assert sent[i] in sent;
      }
    }
    forall n | n in sent
      ensures n.userId in userIds && n.userId != event.createdById
    {
      var i :| 0 <= i < |sent| && sent[i] == n;
      assert recipients[i] in recipients;
    }
  }

  // ---------------------------------------------------------------------------
  // update

  datatype UpdateEventDto = UpdateEventDto(
    title: Option<string>,
    description: Option<string>,
    category: Option<string>,
    status: Option<EventStatus>)

  /** `dataToUpdate`: the DTO's fields plus the normalised columns it adds. */
  datatype UpdateData = UpdateData(
    title: Option<string>,
    description: Option<string>,
    category: Option<string>,
    status: Option<EventStatus>,
    titleNormalized: Option<string>,
    descriptionNormalized: Option<string>)

  /** `data` carries the DTO's fields, and a normalised column exactly for each of the
      title and description that is truthy. */
  predicate Recomputes(dto: UpdateEventDto, data: UpdateData) {
    data.title == dto.title && data.description == dto.description
    && data.category == dto.category && data.status == dto.status
    && (data.titleNormalized.Some? <==> Truthy(dto.title))
    && (data.titleNormalized.Some? ==> data.titleNormalized.value == NormalizeText(dto.title))
    && (data.descriptionNormalized.Some? <==> Truthy(dto.description))
    && (data.descriptionNormalized.Some? ==> data.descriptionNormalized.value == NormalizeText(dto.description))
  }

  /** The update data of `update`, built field by field. */
  method BuildUpdateData(dto: UpdateEventDto) returns (data: UpdateData)
    ensures Recomputes(dto, data)
  {
    data := UpdateData(dto.title, dto.description, dto.category, dto.status, None, None);
    if Truthy(dto.title) {
      data := data.(titleNormalized := Some(NormalizeText(dto.title)));
    }
    if Truthy(dto.description) {
      data := data.(descriptionNormalized := Some(NormalizeText(dto.description)));
    }
  }

  /** What the database stores after an update: every field the data defines, the
      others as they were. */
  function ApplyUpdate(e: EventData, data: UpdateData): EventData {
    e.(title := data.title.GetOr(e.title),
       description := if data.description.Some? then data.description else e.description,
       category := data.category.GetOr(e.category),
       status := data.status.GetOr(e.status),
       titleNormalized := data.titleNormalized.GetOr(e.titleNormalized),
       descriptionNormalized := data.descriptionNormalized.GetOr(e.descriptionNormalized))
  }

  /** An update that leaves a field out or gives it a non-empty value keeps the index
      consistent; the slug is never recomputed. */
  lemma UpdateKeepsConsistent(e: EventData, dto: UpdateEventDto, data: UpdateData)
    requires Consistent(e) && Recomputes(dto, data)
    requires dto.title != Some([]) && dto.description != Some([])
    ensures Consistent(ApplyUpdate(e, data))
    ensures ApplyUpdate(e, data).slug == e.slug
  {
  }

  /** Setting the title to '' stores it but keeps the old normalised title, because
      the recomputation is guarded by truthiness rather than presence. */
  lemma EmptyTitleLeavesStaleIndex(e: EventData, dto: UpdateEventDto, data: UpdateData)
    requires Consistent(e) && Recomputes(dto, data)
    requires dto.title == Some([]) && NormalizeText(Some(e.title)) != []
    ensures ApplyUpdate(e, data).title == []
    ensures !Consistent(ApplyUpdate(e, data))
  {
  }
}
