/** The data helpers of the tag management page, `src/app/tags/page.tsx`: the category
    list of a subject, the flattening of a chapter's tags, the collection of a
    category's tags from nested data, the grouping of custom tags by category, the
    totals behind the empty state, and the add-tag form. The tag library and the
    custom tag store (`src/lib/knowledge-tags.ts`, `src/lib/custom-tags.ts`) are not
    part of this model; they enter as values and as the store's answer. */
module TagsPage {
  import opened Wrappers
  import opened Strings
  import opened JsonValues
  import opened Rewrite

  datatype SubjectKey = Math | Physics | Chemistry | English | Other {
    function Name(): string {
      match this
      case Math => "math"
      case Physics => "physics"
      case Chemistry => "chemistry"
      case English => "english"
      case Other => "other"
    }
  }

  // ---------------------------------------------------------------------------
  // The tag library and the categories of a subject.
  // ---------------------------------------------------------------------------

  datatype Subsection = Subsection(tags: seq<string>)
  /** A section's own tags and its subsections are both optional. */
  datatype Section = Section(tags: Option<seq<string>>, subsections: Option<seq<Subsection>>)
  datatype Chapter = Chapter(chapter: string, sections: seq<Section>)

  /** The math curriculum (grade and semester to chapters) and the tag data of the
      other subjects, each as its entries in enumeration order. */
  datatype Library = Library(mathCurriculum: seq<(string, seq<Chapter>)>, standardTags: seq<(string, Json)>)

  /** `Object.keys` of a list of entries. */
  function Keys<T>(entries: seq<(string, T)>): (r: seq<string>)
    ensures |r| == |entries| && forall i :: 0 <= i < |r| ==> r[i] == entries[i].0
  {
    seq(|entries|, i requires 0 <= i < |entries| => entries[i].0)
  }

  /** Property access: the value of the first entry with the key. */
  function Lookup<T(==)>(entries: seq<(string, T)>, key: string): (r: Option<T>)
    ensures r.None? <==> key !in Keys(entries)
    ensures r.Some? ==> exists i :: 0 <= i < |entries| && entries[i] == (key, r.value)
  {
    if entries == [] then None
    else if entries[0].0 == key then
      assert Keys(entries)[0] == key;
      Some(entries[0].1)
    else
      var r := Lookup(entries[1..], key);
      assert Keys(entries) == [entries[0].0] + Keys(entries[1..]);
      if r.Some? then
        var i :| 0 <= i < |entries[1..]| && entries[1..][i] == (key, r.value);
        assert entries[i + 1] == (key, r.value);
        r
      else r
  }

  /** `typeof v === 'object'` for a truthy `v`: arrays and objects. */
  predicate IsObjectValue(v: Json) {
    v.JArray? || v.JObject?
  }

  /** `Object.keys`: an object's keys, an array's indices in decimal. */
  function ObjectKeys(v: Json): (r: seq<string>)
    ensures v.JObject? ==> r == Keys(v.entries)
    ensures v.JArray? ==> |r| == |v.items| && forall i :: 0 <= i < |r| ==> r[i] == Decimal(i)
    ensures !IsObjectValue(v) ==> r == []
  {
    match v
    case JObject(entries) => Keys(entries)
    case JArray(items) => seq(|items|, i requires 0 <= i < |items| => Decimal(i))
    case _ => []
  }

  /** `getCategoriesForSubject`: math lists its grades, other has none, and any other
      subject lists the keys of its library entry when that entry is an object or an
      array. */
  function CategoriesForSubject(library: Library, subject: string): seq<string> {
    if subject == "math" then Keys(library.mathCurriculum)
    else if subject == "other" then []
    else match Lookup(library.standardTags, subject)
      case Some(data) => if IsObjectValue(data) then ObjectKeys(data) else []
      case None => []
  }

  function Categories(library: Library, subject: SubjectKey): seq<string> {
    CategoriesForSubject(library, subject.Name())
  }

  /** The category picker of a subject other than math and other offers exactly the
      keys of its library entry when that entry is an object, the decimal indices when
      it is an array, and nothing when the entry is missing, is a string, number,
      boolean or `null`, or is empty. */
  lemma CategoriesOfStandardSubject(library: Library, subject: SubjectKey)
    requires subject != Math && subject != Other
    ensures var data := Lookup(library.standardTags, subject.Name());
      var cats := Categories(library, subject);
      (data.Some? && data.value.JObject? ==> forall c :: c in cats <==> Lookup(data.value.entries, c).Some?) &&
      (data.Some? && data.value.JArray? ==> |cats| == |data.value.items| && forall i :: 0 <= i < |cats| ==> cats[i] == Decimal(i)) &&
      (cats == [] <==> data.None? || !IsObjectValue(data.value) ||
                       (data.value.JObject? && data.value.entries == []) || (data.value.JArray? && data.value.items == []))
  {
    var data := Lookup(library.standardTags, subject.Name());
    assert subject.Name() != "math" && subject.Name() != "other";
    if data.Some? && data.value.JObject? {
      assert |Keys(data.value.entries)| == |data.value.entries|;
    }
  }

  /** Math offers exactly its grades, and none only when the curriculum is empty; other
      offers no category at all. */
  lemma CategoriesOfMathAndOther(library: Library)
    ensures forall c :: c in Categories(library, Math) <==> Lookup(library.mathCurriculum, c).Some?
    ensures Categories(library, Math) == [] <==> library.mathCurriculum == []
    ensures Categories(library, Other) == []
  {
    assert |Keys(library.mathCurriculum)| == |library.mathCurriculum|;
  }

  // ---------------------------------------------------------------------------
  // A chapter's tags.
  // ---------------------------------------------------------------------------

  function SubsectionTags(subsections: seq<Subsection>): seq<string> {
    if subsections == [] then []
    else SubsectionTags(subsections[..|subsections| - 1]) + subsections[|subsections| - 1].tags
  }

  /** A section's own tags, when present, then each subsection's. */
  function SectionTags(section: Section): seq<string> {
    section.tags.GetOr([]) + SubsectionTags(section.subsections.GetOr([]))
  }

  /** The tags of the sections in order. */
  function FlattenChapter(sections: seq<Section>): seq<string> {
    if sections == [] then []
    else FlattenChapter(sections[..|sections| - 1]) + SectionTags(sections[|sections| - 1])
  }

  /** The nested `forEach` loops that fill `chapterTags`. */
  method ChapterTags(sections: seq<Section>) returns (chapterTags: seq<string>)
    ensures chapterTags == FlattenChapter(sections)
  {
    chapterTags := [];
    var i := 0;
    while i < |sections|
      invariant 0 <= i <= |sections|
      invariant chapterTags == FlattenChapter(sections[..i])
    {
      var section := sections[i];
      if section.tags.Some? {
        chapterTags := chapterTags + section.tags.value;
      }
      if section.subsections.Some? {
        chapterTags := PushSubsectionTags(chapterTags, section.subsections.value);
      }
      assert chapterTags == FlattenChapter(sections[..i]) + SectionTags(section);
      assert sections[..i + 1][..i] == sections[..i];
      i := i + 1;
    }
    assert sections[..|sections|] == sections;
  }

  /** The inner `forEach` over a section's subsections. */
  method PushSubsectionTags(chapterTags: seq<string>, subsections: seq<Subsection>) returns (out: seq<string>)
    ensures out == chapterTags + SubsectionTags(subsections)
  {
    out := chapterTags;
    var j := 0;
    while j < |subsections|
      invariant 0 <= j <= |subsections|
      invariant out == chapterTags + SubsectionTags(subsections[..j])
    {
      out := out + subsections[j].tags;
      assert subsections[..j + 1][..j] == subsections[..j];
      j := j + 1;
    }
    assert subsections[..|subsections|] == subsections;
  }

  /** A tag is listed for a subsection list exactly when some subsection has it. */
  lemma {:induction false} SubsectionTagsHas(subsections: seq<Subsection>, tag: string)
    ensures tag in SubsectionTags(subsections) <==> exists k :: 0 <= k < |subsections| && tag in subsections[k].tags
    decreases |subsections|
  {
    if subsections != [] {
      var n := |subsections| - 1;
      SubsectionTagsHas(subsections[..n], tag);
      if tag in subsections[n].tags {
        assert tag in SubsectionTags(subsections);
      }
      forall k | 0 <= k < n ensures subsections[..n][k] == subsections[k] { }
    }
  }

  /** A tag is shown under a chapter exactly when one of its sections, or one of their
      subsections, lists it. */
  lemma {:induction false} ChapterTagsHas(sections: seq<Section>, tag: string)
    ensures tag in FlattenChapter(sections) <==>
      exists k :: 0 <= k < |sections| && tag in SectionTags(sections[k])
    decreases |sections|
  {
    if sections != [] {
      var n := |sections| - 1;
      var init := FlattenChapter(sections[..n]);
      ChapterTagsHas(sections[..n], tag);
      assert FlattenChapter(sections) == init + SectionTags(sections[n]);
      if tag in FlattenChapter(sections) {
        if tag in init {
          var k :| 0 <= k < |sections[..n]| && tag in SectionTags(sections[..n][k]);
          assert sections[..n][k] == sections[k];
        } else {
          assert tag in SectionTags(sections[n]);
        }
      }
      if exists k :: 0 <= k < |sections| && tag in SectionTags(sections[k]) {
        var k :| 0 <= k < |sections| && tag in SectionTags(sections[k]);
        if k < n {
          assert sections[..n][k] == sections[k];
          assert tag in init;
        }
      }
    }
  }

  /** A section lists a tag when its own tags or one of its subsections do. */
  lemma SectionTagsHas(section: Section, tag: string)
    ensures tag in SectionTags(section) <==>
      (section.tags.Some? && tag in section.tags.value) ||
      (section.subsections.Some? && exists k :: 0 <= k < |section.subsections.value| && tag in section.subsections.value[k].tags)
  {
    SubsectionTagsHas(section.subsections.GetOr([]), tag);
  }

  /** Flattening splits over consecutive runs of sections. */
  lemma {:induction false} FlattenAppend(a: seq<Section>, b: seq<Section>)
    ensures FlattenChapter(a + b) == FlattenChapter(a) + FlattenChapter(b)
    decreases |b|
  {
    if b == [] {
      assert a + b == a;
    } else {
      var n := |b| - 1;
      assert (a + b)[..|a + b| - 1] == a + b[..n];
      FlattenAppend(a, b[..n]);
    }
  }

  // ---------------------------------------------------------------------------
  // A category's tags: `extractTags`.
  // ---------------------------------------------------------------------------

  /** What `extractTags` pushes for a value: an array's elements as they are (nested
      arrays are not opened), for an object what its values push in order, and
      nothing for a string, number or boolean. `null` is of type `object`, and
      `Object.values(null)` throws, which `None` stands for. */
  function Collected(data: Json): Option<seq<Json>>
    decreases data, 1, 0
  {
    match data
    case JArray(items) => Some(items)
    case JObject(entries) => CollectedUpTo(data, |entries|)
    case JNull => None
    case _ => Some([])
  }

  /** What the first `n` values of an object push. */
  function CollectedUpTo(data: Json, n: nat): Option<seq<Json>>
    requires data.JObject? && n <= |data.entries|
    decreases data, 0, n
  {
    if n == 0 then Some([])
    else match CollectedUpTo(data, n - 1)
      case None => None
      case Some(before) =>
        assert data.entries[n - 1] in data.entries;
        match Collected(data.entries[n - 1].1)
        case None => None
        case Some(more) => Some(before + more)
  }

  lemma {:induction false} ThrowSticks(data: Json, k: nat, n: nat)
    requires data.JObject? && k <= n <= |data.entries|
    requires CollectedUpTo(data, k).None?
    ensures CollectedUpTo(data, n).None?
    decreases n - k
  {
    if k < n {
      ThrowSticks(data, k + 1, n);
    }
  }

  /** `extractTags` pushing onto the page's `tags` list: the list ends up extended by
      what the value collects, or the call throws. */
  method ExtractTags(data: Json, tags: seq<Json>) returns (out: seq<Json>, threw: bool)
    ensures threw <==> Collected(data).None?
    ensures !threw ==> out == tags + Collected(data).value
    decreases data
  {
    match data {
      case JArray(items) =>
        out, threw := tags + items, false;
      case JObject(entries) =>
        out, threw := tags, false;
        var i := 0;
        while i < |entries|
          invariant 0 <= i <= |entries|
          invariant CollectedUpTo(data, i).Some? && out == tags + CollectedUpTo(data, i).value
        {
          assert entries[i] in entries;
          var more;
          out, more := ExtractTags(entries[i].1, out);
          if more {
            ThrowSticks(data, i + 1, |entries|);
            return out, true;
          }
          i := i + 1;
        }
      case JNull =>
        out, threw := tags, true;
      case _ =>
        out, threw := tags, false;
    }
  }

  /** The shape tag data is meant to have: arrays of strings, or objects whose values
      have that shape. */
  predicate IsTagTree(data: Json)
    decreases data
  {
    match data
    case JArray(items) => forall i :: 0 <= i < |items| ==> items[i].JString?
    case JObject(entries) => forall i :: 0 <= i < |entries| ==> entries[i] in entries && IsTagTree(entries[i].1)
    case _ => false
  }

  /** Every string of a tag tree, depth first, left to right. */
  function Leaves(data: Json): seq<string>
    requires IsTagTree(data)
    decreases data, 1, 0
  {
    match data
    case JArray(items) => seq(|items|, i requires 0 <= i < |items| => items[i].s)
    case JObject(entries) => LeavesUpTo(data, |entries|)
  }

  function LeavesUpTo(data: Json, n: nat): seq<string>
    requires IsTagTree(data) && data.JObject? && n <= |data.entries|
    decreases data, 0, n
  {
    if n == 0 then []
    else
      assert data.entries[n - 1] in data.entries;
      LeavesUpTo(data, n - 1) + Leaves(data.entries[n - 1].1)
  }

  function AsJson(tags: seq<string>): (r: seq<Json>)
    ensures |r| == |tags| && forall i :: 0 <= i < |r| ==> r[i] == JString(tags[i])
  {
    seq(|tags|, i requires 0 <= i < |tags| => JString(tags[i]))
  }

  /** On data of the intended shape, the collected tags are exactly its strings in
      traversal order. */
  lemma {:induction false} CollectTagTree(data: Json)
    requires IsTagTree(data)
    ensures Collected(data) == Some(AsJson(Leaves(data)))
    decreases data, 1, 0
  {
    match data {
      case JArray(items) =>
        assert AsJson(Leaves(data)) == items;
      case JObject(entries) =>
        CollectTagTreeUpTo(data, |entries|);
    }
  }

  lemma {:induction false} CollectTagTreeUpTo(data: Json, n: nat)
    requires IsTagTree(data) && data.JObject? && n <= |data.entries|
    ensures CollectedUpTo(data, n) == Some(AsJson(LeavesUpTo(data, n)))
    decreases data, 0, n
  {
    if n > 0 {
      assert data.entries[n - 1] in data.entries;
      CollectTagTreeUpTo(data, n - 1);
      CollectTagTree(data.entries[n - 1].1);
      assert AsJson(LeavesUpTo(data, n - 1) + Leaves(data.entries[n - 1].1)) ==
        AsJson(LeavesUpTo(data, n - 1)) + AsJson(Leaves(data.entries[n - 1].1));
    }
  }

  /** Off that shape the collection is not a traversal of strings: a string directly
      under an object is skipped, and an array inside an array is pushed whole. */
  lemma CollectOffShape(tag: string, key: string)
    ensures Collected(JObject([(key, JString(tag))])) == Some([])
    ensures Collected(JArray([JArray([JString(tag)])])) == Some([JArray([JString(tag)])])
    ensures Collected(JObject([(key, JNull)])).None?
  {
    var loose := JObject([(key, JString(tag))]);
    var none: seq<Json> := [];
    assert loose.entries[0].1 == JString(tag);
    assert Collected(JString(tag)) == Some(none);
    assert CollectedUpTo(loose, 0) == Some(none);
    assert none + none == none;
    assert CollectedUpTo(loose, 1) == Some(none);
    assert Collected(loose) == CollectedUpTo(loose, 1);
    var broken := JObject([(key, JNull)]);
    assert broken.entries[0].1 == JNull;
    assert CollectedUpTo(broken, 0) == Some(none);
    assert CollectedUpTo(broken, 1).None?;
    assert Collected(broken) == CollectedUpTo(broken, 1);
  }

  /** A category is rendered, with its tag count, only when it collects at least one
      tag. */
  method RenderCategory(categoryKey: string, categoryData: Json) returns (heading: Option<(string, nat)>, threw: bool)
    ensures threw <==> Collected(categoryData).None?
    ensures !threw ==> (heading.None? <==> Collected(categoryData).value == [])
    ensures !threw && heading.Some? ==> heading.value == (categoryKey, |Collected(categoryData).value|)
  {
    var tags;
    tags, threw := ExtractTags(categoryData, []);
    if threw {
      return None, true;
    }
    if |tags| == 0 {
      heading := None;
    } else {
      heading := Some((categoryKey, |tags|));
    }
  }

  // ---------------------------------------------------------------------------
  // Custom tags grouped by category.
  // ---------------------------------------------------------------------------

  datatype CustomTag = CustomTag(name: string, category: Option<string>)

  /** `tag.category || 'default'`: a missing or empty category is the default one. */
  function CategoryOf(tag: CustomTag): (c: string)
    ensures c != ""
  {
    if tag.category.GetOr("") == "" then "default" else tag.category.value
  }

  /** The categories in order of first appearance: the key order of `grouped`. */
  function CategoryOrder(tags: seq<CustomTag>): seq<string> {
    if tags == [] then []
    else
      var before := CategoryOrder(tags[..|tags| - 1]);
      var c := CategoryOf(tags[|tags| - 1]);
      if c in before then before else before + [c]
  }

  /** The tags of one category, in their original order. */
  function Members(tags: seq<CustomTag>, c: string): seq<CustomTag> {
    if tags == [] then []
    else Members(tags[..|tags| - 1], c) + (if CategoryOf(tags[|tags| - 1]) == c then [tags[|tags| - 1]] else [])
  }

  predicate DistinctKeys(keys: seq<string>) {
    forall i, j :: 0 <= i < j < |keys| ==> keys[i] != keys[j]
  }

  /** The `forEach` that fills `grouped`: the keys come in order of first appearance,
      and each group holds its category's tags in order. */
  method GroupByCategory(tags: seq<CustomTag>) returns (keys: seq<string>, grouped: map<string, seq<CustomTag>>)
    ensures keys == CategoryOrder(tags)
    ensures grouped.Keys == set c | c in keys
    ensures forall c :: c in grouped ==> grouped[c] == Members(tags, c)
  {
    keys, grouped := [], map[];
    var i := 0;
    while i < |tags|
      invariant 0 <= i <= |tags|
      invariant keys == CategoryOrder(tags[..i])
      invariant grouped.Keys == set c | c in keys
      invariant forall c :: c in grouped ==> grouped[c] == Members(tags[..i], c)
    {
      var tag := tags[i];
      var cat := CategoryOf(tag);
      assert tags[..i + 1][..i] == tags[..i] && tags[..i + 1][i] == tag;
      if cat !in grouped {
        grouped := grouped[cat := []];
        keys := keys + [cat];
        MembersOfUnseen(tags[..i], cat);
      }
      grouped := grouped[cat := grouped[cat] + [tag]];
      i := i + 1;
    }
    assert tags[..|tags|] == tags;
  }

  /** A category that has not appeared yet has no members. */
  lemma {:induction false} MembersOfUnseen(tags: seq<CustomTag>, c: string)
    requires c !in CategoryOrder(tags)
    ensures Members(tags, c) == []
    decreases |tags|
  {
    if tags != [] {
      MembersOfUnseen(tags[..|tags| - 1], c);
    }
  }

  lemma {:induction false} CategoryOrderDistinct(tags: seq<CustomTag>)
    ensures DistinctKeys(CategoryOrder(tags))
    decreases |tags|
  {
    if tags != [] {
      CategoryOrderDistinct(tags[..|tags| - 1]);
    }
  }

  /** Every tag lands in the group of its own category, and in no other. */
  lemma {:induction false} GroupOfEachTag(tags: seq<CustomTag>, tag: CustomTag, c: string)
    ensures tag in Members(tags, c) ==> c == CategoryOf(tag) && tag in tags
    ensures tag in tags ==> tag in Members(tags, CategoryOf(tag)) && CategoryOf(tag) in CategoryOrder(tags)
    decreases |tags|
  {
    if tags != [] {
      var n := |tags| - 1;
      GroupOfEachTag(tags[..n], tag, c);
      assert tags == tags[..n] + [tags[n]];
      if tag in tags && tag !in tags[..n] {
        assert tag == tags[n];
      }
      if tag in tags[..n] {
        CategoryOrderGrows(tags);
      }
    }
  }

  lemma CategoryOrderGrows(tags: seq<CustomTag>)
    requires tags != []
    ensures forall c :: c in CategoryOrder(tags[..|tags| - 1]) ==> c in CategoryOrder(tags)
  {
  }

  /** The sizes of the groups in a key list, summed. */
  function GroupSizes(tags: seq<CustomTag>, keys: seq<string>): nat {
    if keys == [] then 0 else GroupSizes(tags, keys[..|keys| - 1]) + |Members(tags, keys[|keys| - 1])|
  }

  /** One more tag adds one to its own group and nothing to any other. */
  lemma {:induction false} GroupSizesStep(tags: seq<CustomTag>, keys: seq<string>)
    requires tags != [] && DistinctKeys(keys)
    ensures GroupSizes(tags, keys) ==
      GroupSizes(tags[..|tags| - 1], keys) + (if CategoryOf(tags[|tags| - 1]) in keys then 1 else 0)
    decreases |keys|
  {
    if keys != [] {
      var n := |keys| - 1;
      assert DistinctKeys(keys[..n]);
      GroupSizesStep(tags, keys[..n]);
      assert keys == keys[..n] + [keys[n]];
      assert keys[n] !in keys[..n];
    }
  }

  /** The group sizes add up to the number of custom tags. */
  lemma {:induction false} GroupSizesSum(tags: seq<CustomTag>)
    ensures GroupSizes(tags, CategoryOrder(tags)) == |tags|
    decreases |tags|
  {
    if tags != [] {
      var before := tags[..|tags| - 1];
      var c := CategoryOf(tags[|tags| - 1]);
      GroupSizesSum(before);
      CategoryOrderDistinct(tags);
      CategoryOrderDistinct(before);
      var keys := CategoryOrder(before);
      if c in keys {
        GroupSizesStep(tags, keys);
      } else {
        GroupSizesStep(tags, keys);
        assert CategoryOrder(tags)[..|CategoryOrder(tags)| - 1] == keys;
        MembersOfUnseen(before, c);
      }
    }
  }

  /** The heading over a group: a category's own name, except that the default group
      has a heading only when it is not empty and other groups exist. */
  function GroupHeading(category: string, categoryTags: seq<CustomTag>, groupCount: nat): Option<string> {
    if category != "default" then Some(category)
    else if |categoryTags| > 0 && groupCount > 1 then Some("Default")
    else None
  }

  /** Among the groups that `GroupByCategory` builds, the only group without a heading
      is the default group when it is the only group. */
  lemma DefaultHeadingRule(tags: seq<CustomTag>, category: string)
    requires category in CategoryOrder(tags)
    ensures GroupHeading(category, Members(tags, category), |CategoryOrder(tags)|).None? <==>
      category == "default" && CategoryOrder(tags) == ["default"]
  {
    OrderedCategoryHasMembers(tags, category);
    CategoryOrderDistinct(tags);
    var keys := CategoryOrder(tags);
    if |keys| == 1 {
      assert keys == [keys[0]];
    } else {
      assert keys != [category];
    }
  }

  lemma {:induction false} OrderedCategoryHasMembers(tags: seq<CustomTag>, c: string)
    requires c in CategoryOrder(tags)
    ensures Members(tags, c) != []
    decreases |tags|
  {
    var before := tags[..|tags| - 1];
    if c in CategoryOrder(before) {
      OrderedCategoryHasMembers(before, c);
    }
  }

  // ---------------------------------------------------------------------------
  // The custom tag list: totals and the empty state.
  // ---------------------------------------------------------------------------

  datatype CustomTagsData = CustomTagsData(math: seq<CustomTag>, physics: seq<CustomTag>, chemistry: seq<CustomTag>,
                                           english: seq<CustomTag>, other: seq<CustomTag>) {
    function Of(subject: SubjectKey): seq<CustomTag> {
      match subject
      case Math => math
      case Physics => physics
      case Chemistry => chemistry
      case English => english
      case Other => other
    }
  }

  function TotalCount(data: CustomTagsData): nat {
    |data.math| + |data.physics| + |data.chemistry| + |data.english| + |data.other|
  }

  /** The order of the subject cards. */
  const SubjectOrder: seq<SubjectKey> := [Math, English, Physics, Chemistry, Other]

  function NonEmptySubjects(data: CustomTagsData, subjects: seq<SubjectKey>): seq<SubjectKey> {
    if subjects == [] then []
    else
      var last := subjects[|subjects| - 1];
      NonEmptySubjects(data, subjects[..|subjects| - 1]) + (if |data.Of(last)| > 0 then [last] else [])
  }

  /** The cards that render: none when the total is zero, and otherwise exactly the
      subjects with tags, in the fixed order. */
  function CustomTagCards(data: CustomTagsData): (cards: seq<SubjectKey>) {
    if TotalCount(data) == 0 then [] else NonEmptySubjects(data, SubjectOrder)
  }

  lemma {:induction false} NonEmptySubjectsHas(data: CustomTagsData, subjects: seq<SubjectKey>, s: SubjectKey)
    ensures s in NonEmptySubjects(data, subjects) <==> s in subjects && |data.Of(s)| > 0
    decreases |subjects|
  {
    if subjects != [] {
      var n := |subjects| - 1;
      NonEmptySubjectsHas(data, subjects[..n], s);
      assert subjects == subjects[..n] + [subjects[n]];
    }
  }

  /** The empty state shows exactly when no subject has a custom tag, and otherwise a
      subject's card is shown exactly when it has tags; the total is the sum over the
      five subjects. */
  lemma CardsAndEmptyState(data: CustomTagsData, s: SubjectKey)
    ensures TotalCount(data) == 0 <==> forall k :: k in SubjectOrder ==> data.Of(k) == []
    ensures TotalCount(data) > 0 ==> (s in CustomTagCards(data) <==> |data.Of(s)| > 0)
    ensures TotalCount(data) == 0 ==> CustomTagCards(data) == []
  {
    assert SubjectOrder[0] == Math && SubjectOrder[1] == English && SubjectOrder[2] == Physics;
    assert SubjectOrder[3] == Chemistry && SubjectOrder[4] == Other;
    assert s in SubjectOrder by {
      match s {
        case Math => assert SubjectOrder[0] == s;
        case English => assert SubjectOrder[1] == s;
        case Physics => assert SubjectOrder[2] == s;
        case Chemistry => assert SubjectOrder[3] == s;
        case Other => assert SubjectOrder[4] == s;
      }
    }
    assert data.math == data.Of(Math) && data.physics == data.Of(Physics) && data.chemistry == data.Of(Chemistry);
    assert data.english == data.Of(English) && data.other == data.Of(Other);
    NonEmptySubjectsHas(data, SubjectOrder, s);
  }

  // ---------------------------------------------------------------------------
  // The add-tag form.
  // ---------------------------------------------------------------------------

  datatype Form = Form(subject: SubjectKey, category: string, name: string)

  datatype Alert = EnterName | Added | AlreadyExists

  /** What the page asks the store to add. */
  datatype AddRequest = AddRequest(subject: SubjectKey, name: string, category: string)

  /** `handleAddCustomTag`: a blank name only raises an alert; otherwise the trimmed
      name goes to the store, whose answer `stored` decides whether the input is
      cleared. */
  function HandleAddCustomTag(form: Form, stored: bool): (r: (Form, Option<AddRequest>, Alert)) {
    var name := Trim(form.name);
    if name == "" then (form, None, EnterName)
    else if stored then (form.(name := ""), Some(AddRequest(form.subject, name, form.category)), Added)
    else (form, Some(AddRequest(form.subject, name, form.category)), AlreadyExists)
  }

  /** A blank name never reaches the store; any other reaches it trimmed; the input is
      cleared only when the store accepted the tag, and subject and category stay. */
  lemma AddCustomTagGuard(form: Form, stored: bool)
    ensures var (after, request, alert) := HandleAddCustomTag(form, stored);
      (request.None? <==> AllSpace(form.name)) &&
      (request.Some? ==> request.value == AddRequest(form.subject, Trim(form.name), form.category) &&
                         request.value.name != "" && !IsSpace(request.value.name[0])) &&
      (after.name == "" <==> (request.Some? && stored) || form.name == "") &&
      after.subject == form.subject && after.category == form.category
  {
    TrimEmptyIffAllSpace(form.name);
  }

  /** The confirmation text used when no translation supplies one: the placeholder
      `{tag}` between the quotes. */
  const DeleteConfirmFront := "Are you sure you want to delete tag \""
  const DeleteConfirmBack := "\"?"
  const DeleteConfirmDefault := DeleteConfirmFront + "{tag}" + DeleteConfirmBack

  /** The confirmation text: the first `{tag}` of the template becomes the tag, with
      the tag read as a `replace` replacement text, so its `$` patterns are expanded. */
  function DeletePrompt(template: string, tag: string): string {
    ReplaceFirst(template, "{tag}", tag)
  }

  /** `handleRemoveCustomTag`: the user is asked, and `confirmed` is the answer; only a
      confirmed deletion reaches the store, for the tag and subject of the badge. */
  function HandleRemoveCustomTag(template: string, subject: SubjectKey, tag: string, confirmed: bool)
    : (r: (string, Option<(SubjectKey, string)>))
  {
    (DeletePrompt(template, tag), if confirmed then Some((subject, tag)) else None)
  }

  /** The default confirmation puts the tag between the quotes as a replacement text;
      a tag without `$` is quoted in full, even one that itself reads `{tag}`. Only a
      confirmed deletion is requested, for the badge's subject and tag. */
  lemma RemovePromptAndRequest(subject: SubjectKey, tag: string, confirmed: bool)
    ensures var (prompt, request) := HandleRemoveCustomTag(DeleteConfirmDefault, subject, tag, confirmed);
      prompt == DeleteConfirmFront + Substitution(tag, "{tag}", DeleteConfirmFront, DeleteConfirmBack) + DeleteConfirmBack &&
      ('$' !in tag ==> prompt == DeleteConfirmFront + tag + DeleteConfirmBack) &&
      (request.Some? <==> confirmed) && (request.Some? ==> request.value == (subject, tag))
  {
    ReplaceFirstAt(DeleteConfirmFront, "{tag}", tag, DeleteConfirmBack);
    if '$' !in tag {
      SubstitutionPlain(tag, "{tag}", DeleteConfirmFront, DeleteConfirmBack);
    }
  }

  /** A tag holding `$` patterns is not quoted as written: `$&` brings back the
      placeholder. */
  lemma MatchedTagPrompt()
    ensures DeletePrompt(DeleteConfirmDefault, "$&") == DeleteConfirmDefault
  {
    ReplaceFirstAt(DeleteConfirmFront, "{tag}", "$&", DeleteConfirmBack);
    assert Substitution("$&", "{tag}", DeleteConfirmFront, DeleteConfirmBack) == "{tag}" + [];
  }

  /** `$$` in a tag collapses to one `$`. */
  lemma DoubledDollarTagPrompt()
    ensures DeletePrompt(DeleteConfirmDefault, "a$$b") == DeleteConfirmFront + "a$b" + DeleteConfirmBack
  {
    ReplaceFirstAt(DeleteConfirmFront, "{tag}", "a$$b", DeleteConfirmBack);
    var front, back := DeleteConfirmFront, DeleteConfirmBack;
    assert "a$$b"[1..] == "$$b" && "$$b"[2..] == "b";
    assert Substitution("b", "{tag}", front, back) == "b";
    assert Substitution("$$b", "{tag}", front, back) == "$b";
  }

  /** `` $` `` in a tag repeats the text before the placeholder. */
  lemma BeforeTagPrompt()
    ensures DeletePrompt(DeleteConfirmDefault, "$`") == DeleteConfirmFront + DeleteConfirmFront + DeleteConfirmBack
  {
    ReplaceFirstAt(DeleteConfirmFront, "{tag}", "$`", DeleteConfirmBack);
    assert Substitution("$`", "{tag}", DeleteConfirmFront, DeleteConfirmBack) == DeleteConfirmFront + [];
  }

  /** Choosing a subject resets the category to the subject's first category, or to
      `default` when it has none. */
  function OnSubjectChange(library: Library, form: Form, subject: SubjectKey): Form {
    var cats := Categories(library, subject);
    form.(subject := subject, category := if |cats| > 0 then cats[0] else "default")
  }

  lemma SubjectChangeCategory(library: Library, form: Form, subject: SubjectKey)
    ensures var after := OnSubjectChange(library, form, subject);
      var cats := Categories(library, subject);
      after.subject == subject && after.name == form.name &&
      (cats != [] ==> after.category == cats[0] && after.category in cats) &&
      (cats == [] ==> after.category == "default")
  {
  }

  /** The form starts on math with an empty name, and the first math grade as category,
      or `default` when the curriculum is empty. */
  function InitialForm(library: Library): (form: Form)
    ensures form.subject == Math && form.name == ""
    ensures library.mathCurriculum != [] ==> form.category == library.mathCurriculum[0].0
    ensures library.mathCurriculum == [] ==> form.category == "default"
    ensures form.category in Categories(library, Math) || (Categories(library, Math) == [] && form.category == "default")
  {
    var mathCats := Keys(library.mathCurriculum);
    Form(Math, if |mathCats| > 0 then mathCats[0] else "default", "")
  }
}
