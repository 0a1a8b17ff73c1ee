/**
 * The renderer plugin that builds the search index: which reflections
 * become search rows, the document handed to the index builder for each,
 * and the comment text that is indexed.
 */
module JavascriptIndex {
  import opened Common
  import opened Comments

  datatype SignatureReflection = SignatureReflection(comment: Option<Comment>)

  /** A reflection's parent: the project itself, or another reflection with its full name. */
  datatype Parent = ProjectParent | ReflectionParent(fullName: string)

  /** The fields of a reflection that the plugin reads. */
  datatype Reflection = Reflection(
    isDeclaration: bool,
    kind: int,
    name: string,
    url: Option<string>,
    isExternal: bool,
    relevanceBoost: Option<real>,
    parent: Option<Parent>,
    comment: Option<Comment>,
    signatures: Option<seq<SignatureReflection>>,
    getSignature: Option<SignatureReflection>,
    setSignature: Option<SignatureReflection>)

  /** One row of the search data written beside the index. */
  datatype SearchDocument = SearchDocument(
    kind: int,
    name: string,
    url: string,
    classes: string,
    parent: Option<string>)

  /** A field value of a document given to the index builder. */
  datatype Field = Text(text: string) | Number(n: int) | Undefined

  type IndexDoc = map<string, Field>

  /** One `builder.add(doc, { boost })` call. */
  datatype AddedDocument = AddedDocument(doc: IndexDoc, boost: real)

  /** The `IndexEvent` after the `PREPARE_INDEX` listeners ran. */
  datatype IndexEvent = IndexEvent(searchResults: seq<Reflection>, searchFields: seq<map<string, Field>>)

  /** What `onRendererBegin` produces: the rows and the documents added, in order. */
  datatype SearchData = SearchData(rows: seq<SearchDocument>, documents: seq<AddedDocument>)

  // ---------------------------------------------------------------------
  // Which reflections are indexed
  // ---------------------------------------------------------------------

  /** A declaration with a url and a name that is not external. */
  predicate IsCandidate(r: Reflection) {
    r.isDeclaration && Truthy(r.url) && r.name != "" && !r.isExternal
  }

  /** The initial search results: the reflections filtered to the candidates, in order. */
  function InitialSearchResults(reflections: seq<Reflection>): (r: seq<Reflection>)
    ensures forall x :: x in r <==> x in reflections && IsCandidate(x)
    ensures |r| <= |reflections|
  {
    if reflections == [] then []
    else
      var last := reflections[|reflections| - 1];
      InitialSearchResults(reflections[..|reflections| - 1]) + (if IsCandidate(last) then [last] else [])
  }

  /** `relevanceBoost ?? 1`: an explicit boost, even 0, wins over the default. */
  function Boost(r: Reflection): real {
    r.relevanceBoost.GetOr(1.0)
  }

  /** The loop keeps a reflection when it has a url and a positive boost. */
  predicate Indexed(r: Reflection) {
    Truthy(r.url) && Boost(r) > 0.0
  }

  /** The reflections the loop keeps, in order. */
  function Kept(results: seq<Reflection>): (r: seq<Reflection>)
    ensures forall x :: x in r <==> x in results && Indexed(x)
    ensures |r| <= |results|
  {
    if results == [] then []
    else
      var last := results[|results| - 1];
      Kept(results[..|results| - 1]) + (if Indexed(last) then [last] else [])
  }

  /** The row for a kept reflection: `parent` only when the parent is not the project. */
  function RowOf(r: Reflection, classesOf: Reflection -> string): (row: SearchDocument)
    requires Truthy(r.url)
    ensures row.name == r.name && row.kind == r.kind && row.url == r.url.value
    ensures row.classes == classesOf(r)
    ensures row.parent.Some? <==> r.parent.Some? && r.parent.value.ReflectionParent?
    ensures row.parent.Some? ==> row.parent.value == r.parent.value.fullName
  {
    SearchDocument(
      r.kind, r.name, r.url.value, classesOf(r),
      match r.parent
      case Some(ReflectionParent(fullName)) => Some(fullName)
      case _ => None)
  }

  /** `indexEvent.searchFields[k]`, which spreads as nothing when absent. */
  function ExtraFields(searchFields: seq<map<string, Field>>, k: nat): map<string, Field> {
    if k < |searchFields| then searchFields[k] else map[]
  }

  /**
   * The document added for the `k`-th kept reflection: its name and comment
   * text, overridden by the extra fields for `k`, and the id `k` last.
   */
  function DocOf(r: Reflection, k: nat, searchFields: seq<map<string, Field>>, text: Option<string>): (d: IndexDoc)
    ensures "id" in d && d["id"] == Number(k)
    ensures forall key | key in ExtraFields(searchFields, k) && key != "id" :: key in d && d[key] == ExtraFields(searchFields, k)[key]
    ensures "name" in d && ("name" !in ExtraFields(searchFields, k) ==> d["name"] == Text(r.name))
    ensures "comment" in d && ("comment" !in ExtraFields(searchFields, k) ==>
              d["comment"] == if text.Some? then Text(text.value) else Undefined)
    ensures d.Keys == {"name", "comment", "id"} + ExtraFields(searchFields, k).Keys
  {
    map["name" := Text(r.name), "comment" := if text.Some? then Text(text.value) else Undefined]
      + ExtraFields(searchFields, k)
      + map["id" := Number(k)]
  }

  // ---------------------------------------------------------------------
  // Comment text
  // ---------------------------------------------------------------------

  function SignatureComments(signatures: seq<SignatureReflection>): seq<Comment> {
    if signatures == [] then []
    else
      var last := signatures[|signatures| - 1];
      SignatureComments(signatures[..|signatures| - 1]) + (if last.comment.Some? then [last.comment.value] else [])
  }

  function OptionalComment(s: Option<SignatureReflection>): seq<Comment> {
    if s.Some? && s.value.comment.Some? then [s.value.comment.value] else []
  }

  /** The comments searched: the reflection's own, each signature's, the getter's, the setter's. */
  function CollectedComments(r: Reflection): seq<Comment> {
    (if r.comment.Some? then [r.comment.value] else [])
      + (if r.signatures.Some? then SignatureComments(r.signatures.value) else [])
      + OptionalComment(r.getSignature)
      + OptionalComment(r.setSignature)
  }

  function TagParts(tags: seq<CommentTag>): seq<CommentDisplayPart> {
    if tags == [] then [] else tags[0].content + TagParts(tags[1..])
  }

  /** Per comment, the summary parts, then each block tag's content. */
  function Parts(comments: seq<Comment>): seq<CommentDisplayPart> {
    if comments == [] then []
    else comments[0].summary + TagParts(comments[0].blockTags) + Parts(comments[1..])
  }

  function Texts(parts: seq<CommentDisplayPart>): (r: seq<string>)
    ensures |r| == |parts|
    ensures forall i :: 0 <= i < |parts| ==> r[i] == parts[i].text
  {
    if parts == [] then [] else [parts[0].text] + Texts(parts[1..])
  }

  /** `Array.prototype.join("\n")`. */
  function JoinLines(lines: seq<string>): string {
    if lines == [] then ""
    else if |lines| == 1 then lines[0]
    else lines[0] + "\n" + JoinLines(lines[1..])
  }

  /** `String.prototype.split("\n")`: the inverse of `JoinLines` on lines without a newline. */
  function SplitLines(s: string): (r: seq<string>)
    ensures |r| >= 1
  {
    if s == [] then [""]
    else if s[0] == '\n' then [""] + SplitLines(s[1..])
    else
      var rest := SplitLines(s[1..]);
      [[s[0]] + rest[0]] + rest[1..]
  }

  /** The text indexed for a reflection's comments, or none. */
  function CommentSearchText(searchComments: bool, r: Reflection): Option<string> {
    if !searchComments || CollectedComments(r) == [] then None
    else Some(JoinLines(Texts(Parts(CollectedComments(r)))))
  }

  lemma {:induction false} SplitLinesOfLine(a: string)
    requires '\n' !in a
    ensures SplitLines(a) == [a]
  {
    if a != [] {
      assert a[0] in a;
      assert forall c | c in a[1..] :: c in a;
      SplitLinesOfLine(a[1..]);
      assert [a[0]] + a[1..] == a;
    }
  }

  lemma {:induction false} SplitLinesCons(a: string, b: string)
    requires '\n' !in a
    ensures SplitLines(a + "\n" + b) == [a] + SplitLines(b)
  {
    if a == [] {
      assert a + "\n" + b == "\n" + b;
      assert ("\n" + b)[1..] == b;
    } else {
      assert (a + "\n" + b)[0] == a[0];
      assert (a + "\n" + b)[1..] == a[1..] + "\n" + b;
      SplitLinesCons(a[1..], b);
      assert [a[0]] + a[1..] == a;
    }
  }

  /** The lines of the comment text can be recovered from it when no part holds a newline. */
  lemma {:induction false} SplitJoin(lines: seq<string>)
    requires lines != []
    requires forall i :: 0 <= i < |lines| ==> '\n' !in lines[i]
    ensures SplitLines(JoinLines(lines)) == lines
  {
    if |lines| == 1 {
      SplitLinesOfLine(lines[0]);
    } else {
      SplitLinesCons(lines[0], JoinLines(lines[1..]));
      SplitJoin(lines[1..]);
      assert [lines[0]] + lines[1..] == lines;
    }
  }

  /** The parts of several comments are those of each comment, in order. */
  lemma {:induction false} PartsConcat(xs: seq<Comment>, ys: seq<Comment>)
    ensures Parts(xs + ys) == Parts(xs) + Parts(ys)
  {
    if xs == [] {
      assert xs + ys == ys;
    } else {
      assert (xs + ys)[0] == xs[0];
      assert (xs + ys)[1..] == xs[1..] + ys;
      PartsConcat(xs[1..], ys);
    }
  }

  /**
   * The indexed text lists the reflection's own comment before the
   * signatures' comments, and both before the accessors'.
   */
  lemma SearchTextOrder(r: Reflection)
    ensures Parts(CollectedComments(r))
         == Parts(if r.comment.Some? then [r.comment.value] else [])
          + Parts(if r.signatures.Some? then SignatureComments(r.signatures.value) else [])
          + Parts(OptionalComment(r.getSignature))
          + Parts(OptionalComment(r.setSignature))
  {
    var own := if r.comment.Some? then [r.comment.value] else [];
    var sigs := if r.signatures.Some? then SignatureComments(r.signatures.value) else [];
    var getter, setter := OptionalComment(r.getSignature), OptionalComment(r.setSignature);
    PartsConcat(own + sigs + getter, setter);
    PartsConcat(own + sigs, getter);
    PartsConcat(own, sigs);
  }

  /** `signatures.forEach(s => s.comment && comments.push(s.comment))`. */
  method PushSignatureComments(comments: seq<Comment>, signatures: seq<SignatureReflection>) returns (r: seq<Comment>)
    ensures r == comments + SignatureComments(signatures)
  {
    r := comments;
    for i := 0 to |signatures|
      invariant r == comments + SignatureComments(signatures[..i])
    {
      assert signatures[..i + 1][..i] == signatures[..i];
      if signatures[i].comment.Some? {
        r := r + [signatures[i].comment.value];
      }
    }
    assert signatures[..|signatures|] == signatures;
  }

  /** `getCommentSearchText`. */
  method GetCommentSearchText(searchComments: bool, r: Reflection) returns (text: Option<string>)
    ensures text == CommentSearchText(searchComments, r)
    ensures text.None? <==> !searchComments || CollectedComments(r) == []
  {
    if !searchComments {
      return None;
    }

    var comments: seq<Comment> := [];
    if r.comment.Some? {
      comments := comments + [r.comment.value];
    }
    ghost var own := comments;
    assert own == if r.comment.Some? then [r.comment.value] else [];
    if r.signatures.Some? {
      comments := PushSignatureComments(comments, r.signatures.value);
    }
    ghost var withSignatures := comments;
    assert withSignatures == own + (if r.signatures.Some? then SignatureComments(r.signatures.value) else []);
    if r.getSignature.Some? && r.getSignature.value.comment.Some? {
      comments := comments + [r.getSignature.value.comment.value];
    }
    ghost var withGetter := comments;
    assert withGetter == withSignatures + OptionalComment(r.getSignature);
    if r.setSignature.Some? && r.setSignature.value.comment.Some? {
      comments := comments + [r.setSignature.value.comment.value];
    }
    assert comments == withGetter + OptionalComment(r.setSignature);
    assert comments == CollectedComments(r);

    if |comments| == 0 {
      return None;
    }
    text := Some(JoinLines(Texts(Parts(comments))));
  }

  // ---------------------------------------------------------------------
  // onRendererBegin
  // ---------------------------------------------------------------------

  /** The row and the document added for the `k`-th kept reflection. */
  ghost predicate RowsMatch(
    rows: seq<SearchDocument>, documents: seq<AddedDocument>, kept: seq<Reflection>,
    searchFields: seq<map<string, Field>>, classesOf: Reflection -> string, searchComments: bool)
  {
    && |rows| == |kept| && |documents| == |kept|
    && forall k :: 0 <= k < |kept| ==>
         && Truthy(kept[k].url)
         && rows[k] == RowOf(kept[k], classesOf)
         && documents[k] == AddedDocument(
              DocOf(kept[k], k, searchFields, CommentSearchText(searchComments, kept[k])),
              Boost(kept[k]))
  }

  /** One iteration of the row loop, for a reflection that is kept. */
  method IndexRow(
    reflection: Reflection, k: nat, searchFields: seq<map<string, Field>>,
    classesOf: Reflection -> string, searchComments: bool)
    returns (row: SearchDocument, document: AddedDocument)
    requires Truthy(reflection.url)
    ensures row == RowOf(reflection, classesOf)
    ensures document == AddedDocument(
              DocOf(reflection, k, searchFields, CommentSearchText(searchComments, reflection)),
              Boost(reflection))
  {
    var boost := reflection.relevanceBoost.GetOr(1.0);

    var parent := reflection.parent;
    if parent.Some? && parent.value.ProjectParent? {
      parent := None;
    }

    row := SearchDocument(reflection.kind, reflection.name, reflection.url.value, classesOf(reflection), None);
    if parent.Some? {
      row := row.(parent := Some(parent.value.fullName));
    }

    var comment := GetCommentSearchText(searchComments, reflection);
    var doc := map["name" := Text(reflection.name), "comment" := if comment.Some? then Text(comment.value) else Undefined]
      + ExtraFields(searchFields, k)
      + map["id" := Number(k)];
    document := AddedDocument(doc, boost);
  }

  lemma RowsMatchAppend(
    rows: seq<SearchDocument>, documents: seq<AddedDocument>, kept: seq<Reflection>,
    searchFields: seq<map<string, Field>>, classesOf: Reflection -> string, searchComments: bool,
    r: Reflection, row: SearchDocument, document: AddedDocument)
    requires RowsMatch(rows, documents, kept, searchFields, classesOf, searchComments)
    requires Truthy(r.url)
    requires row == RowOf(r, classesOf)
    requires document == AddedDocument(
               DocOf(r, |kept|, searchFields, CommentSearchText(searchComments, r)), Boost(r))
    ensures RowsMatch(rows + [row], documents + [document], kept + [r], searchFields, classesOf, searchComments)
  {
    var kept' := kept + [r];
    forall k | 0 <= k < |kept'|
      ensures Truthy(kept'[k].url)
      ensures (rows + [row])[k] == RowOf(kept'[k], classesOf)
      ensures (documents + [document])[k] == AddedDocument(
                DocOf(kept'[k], k, searchFields, CommentSearchText(searchComments, kept'[k])), Boost(kept'[k]))
    {
      if k < |kept| {
        assert kept'[k] == kept[k] && (rows + [row])[k] == rows[k] && (documents + [document])[k] == documents[k];
      }
    }
  }

  /**
   * `onRendererBegin`: nothing unless the theme is the default theme;
   * otherwise one row and one added document per kept reflection, the
   * `k`-th document having id `k`. `prepareIndex` is the state of the index
   * event after the `PREPARE_INDEX` listeners ran on the initial search
   * results; `classesOf` is the theme's `getReflectionClasses`.
   */
  method OnRendererBegin(
    isDefaultTheme: bool,
    reflections: seq<Reflection>,
    prepareIndex: seq<Reflection> -> IndexEvent,
    classesOf: Reflection -> string,
    searchComments: bool)
    returns (data: Option<SearchData>)
    ensures data.Some? <==> isDefaultTheme
    ensures data.Some? ==>
      var event := prepareIndex(InitialSearchResults(reflections));
      var kept := Kept(event.searchResults);
      && |data.value.rows| == |kept|
      && |data.value.documents| == |kept|
      && forall k :: 0 <= k < |kept| ==>
           && Truthy(kept[k].url)
           && data.value.rows[k] == RowOf(kept[k], classesOf)
           && data.value.documents[k] == AddedDocument(
                DocOf(kept[k], k, event.searchFields, CommentSearchText(searchComments, kept[k])),
                Boost(kept[k]))
  {
    if !isDefaultTheme {
      return None;
    }

    var rows: seq<SearchDocument> := [];
    var documents: seq<AddedDocument> := [];

    var indexEvent := prepareIndex(InitialSearchResults(reflections));
    var results := indexEvent.searchResults;

    for i := 0 to |results|
      invariant RowsMatch(rows, documents, Kept(results[..i]), indexEvent.searchFields, classesOf, searchComments)
    {
      var reflection := results[i];
      assert results[..i + 1][..i] == results[..i];
      assert results[..i + 1][i] == reflection;
      if !Truthy(reflection.url) {
        continue;
      }

      var boost := reflection.relevanceBoost.GetOr(1.0);
      if boost <= 0.0 {
        continue;
      }

      var row, document := IndexRow(reflection, |rows|, indexEvent.searchFields, classesOf, searchComments);
      RowsMatchAppend(rows, documents, Kept(results[..i]), indexEvent.searchFields, classesOf, searchComments,
        reflection, row, document);
      documents := documents + [document];
      rows := rows + [row];
    }
    assert results[..|results|] == results;
    data := Some(SearchData(rows, documents));
  }

  /** Every document added carries a positive boost and comes from a reflection with a url. */
  lemma KeptHaveUrlAndPositiveBoost(results: seq<Reflection>, k: nat)
    requires k < |Kept(results)|
    ensures Truthy(Kept(results)[k].url) && Boost(Kept(results)[k]) > 0.0
  {
    assert Kept(results)[k] in Kept(results);
  }
}
