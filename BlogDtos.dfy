/**
 * The blog request and response records and the validation their
 * data-annotation attributes impose: `[Required]` on Title and Content,
 * `[MaxLength(180)]` on Title, and IsPublished defaulting to true.
 * A Title or Content that is absent or null in the JSON is `None`; for
 * IsPublished, `None` means only that the field was omitted.
 */
module BlogDtos {
  import opened Wrappers
  import opened TextChars

  datatype BlogCreateRequest = BlogCreateRequest(title: Option<string>, content: Option<string>, isPublished: bool)

  datatype BlogUpdateRequest = BlogUpdateRequest(title: Option<string>, content: Option<string>, isPublished: bool)

  /** The post as returned to clients; instants are integer seconds. */
  datatype BlogResponse = BlogResponse(
    id: int,
    title: string,
    slug: string,
    content: string,
    isPublished: bool,
    createdAt: int,
    updatedAt: Option<int>,
    authorId: string,
    authorEmail: Option<string>,
    authorFullName: Option<string>)

  /** One model-state entry: the property and the attribute's default message. */
  datatype ValidationError = ValidationError(member: string, message: string)

  const TitleMaxLength := 180

  /** `[Required]` on a string: present, and not empty or only whitespace. */
  predicate Required(v: Option<string>) {
    v.Some? && !IsEmptyOrWhiteSpace(v.value)
  }

  /** `[MaxLength(n)]` on a string: absent, or at most `n` UTF-16 code units. */
  predicate MaxLength(v: Option<string>, n: nat) {
    v.None? || Utf16Length(v.value) <= n
  }

  /** The attributes' default messages for these two properties. */
  const TitleRequired := ValidationError("Title", "The Title field is required.")
  const TitleTooLong :=
    ValidationError("Title", "The field Title must be a string or array type with a maximum length of '180'.")
  const ContentRequired := ValidationError("Content", "The Content field is required.")

  /** Every attribute of every property is evaluated; the errors come in property and attribute order. */
  function FieldErrors(title: Option<string>, content: Option<string>): (errs: seq<ValidationError>)
    ensures errs == [] <==> Required(title) && MaxLength(title, TitleMaxLength) && Required(content)
    ensures TitleRequired in errs <==> !Required(title)
    ensures TitleTooLong in errs <==> !MaxLength(title, TitleMaxLength)
    ensures ContentRequired in errs <==> !Required(content)
    ensures |errs| <= 3
  {
    (if Required(title) then [] else [TitleRequired])
    + (if MaxLength(title, TitleMaxLength) then [] else [TitleTooLong])
    + (if Required(content) then [] else [ContentRequired])
  }

  predicate IsValidCreate(r: BlogCreateRequest) {
    Required(r.title) && MaxLength(r.title, TitleMaxLength) && Required(r.content)
  }

  predicate IsValidUpdate(r: BlogUpdateRequest) {
    Required(r.title) && MaxLength(r.title, TitleMaxLength) && Required(r.content)
  }

  function CreateErrors(r: BlogCreateRequest): (errs: seq<ValidationError>)
    ensures errs == [] <==> IsValidCreate(r)
  {
    FieldErrors(r.title, r.content)
  }

  function UpdateErrors(r: BlogUpdateRequest): (errs: seq<ValidationError>)
    ensures errs == [] <==> IsValidUpdate(r)
  {
    FieldErrors(r.title, r.content)
  }

  /** `new BlogCreateRequest()`: Title and Content unset, IsPublished true. */
  function DefaultCreate(): (r: BlogCreateRequest)
    ensures r.isPublished && !IsValidCreate(r)
  {
    BlogCreateRequest(None, None, true)
  }

  function DefaultUpdate(): (r: BlogUpdateRequest)
    ensures r.isPublished && !IsValidUpdate(r)
  {
    BlogUpdateRequest(None, None, true)
  }

  /** Binding a JSON body: a field that is absent keeps its initialiser's value. */
  function BindCreate(title: Option<string>, content: Option<string>, isPublished: Option<bool>): (r: BlogCreateRequest)
    ensures r.title == title && r.content == content
    ensures isPublished.None? ==> r.isPublished
    ensures isPublished.Some? ==> r.isPublished == isPublished.value
  {
    BlogCreateRequest(title, content, isPublished.GetOr(DefaultCreate().isPublished))
  }

  function BindUpdate(title: Option<string>, content: Option<string>, isPublished: Option<bool>): (r: BlogUpdateRequest)
    ensures r.title == title && r.content == content
    ensures isPublished.None? ==> r.isPublished
    ensures isPublished.Some? ==> r.isPublished == isPublished.value
  {
    BlogUpdateRequest(title, content, isPublished.GetOr(DefaultUpdate().isPublished))
  }

  // ---------------------------------------------------------------------------
  // Properties

  /** An update request is judged by exactly the rules and messages of a create request. */
  lemma UpdateRulesMatchCreate(title: Option<string>, content: Option<string>, published: bool)
    ensures UpdateErrors(BlogUpdateRequest(title, content, published))
         == CreateErrors(BlogCreateRequest(title, content, published))
    ensures IsValidUpdate(BlogUpdateRequest(title, content, published))
        <==> IsValidCreate(BlogCreateRequest(title, content, published))
  {
  }

  /** IsPublished never affects validity. */
  lemma PublishedFlagIsFree(r: BlogCreateRequest, b: bool)
    ensures CreateErrors(r.(isPublished := b)) == CreateErrors(r)
  {
  }

  /** Content has no length limit: any content with a non-blank character is accepted, however long. */
  lemma ContentLengthIsUnbounded(title: string, content: string, extra: string, published: bool)
    requires Required(Some(title)) && MaxLength(Some(title), TitleMaxLength)
    requires !IsEmptyOrWhiteSpace(content)
    ensures IsValidCreate(BlogCreateRequest(Some(title), Some(content + extra), published))
  {
    var i :| 0 <= i < |content| && !IsWhiteSpace(content[i]);
    assert (content + extra)[i] == content[i];
  }

  /** A title that is only whitespace counts as missing. */
  lemma BlankTitleIsMissing(title: string, content: Option<string>)
    requires IsEmptyOrWhiteSpace(title)
    ensures TitleRequired in FieldErrors(Some(title), content)
  {
  }

  /**
   * The title limit counts UTF-16 code units: 90 characters always fit,
   * more than 180 never do, and for text without surrogate pairs the
   * limit is exactly 180 characters.
   */
  lemma TitleLimitInCharacters(title: string)
    ensures |title| <= 90 ==> MaxLength(Some(title), TitleMaxLength)
    ensures |title| > 180 ==> !MaxLength(Some(title), TitleMaxLength)
    ensures (forall i :: 0 <= i < |title| ==> title[i] as int <= 0xFFFF) ==>
              (MaxLength(Some(title), TitleMaxLength) <==> |title| <= 180)
  {
  }

  /** A title of 91 characters outside the Basic Multilingual Plane is too long. */
  lemma AstralTitleTooLong(c: char)
    requires c as int > 0xFFFF
    ensures !MaxLength(Some(seq(91, _ => c)), TitleMaxLength)
  {
    Utf16Astral(seq(91, _ => c));
  }

  lemma {:induction false} Utf16Astral(s: string)
    requires forall i :: 0 <= i < |s| ==> s[i] as int > 0xFFFF
    ensures Utf16Length(s) == 2 * |s|
    decreases |s|
  {
    if s != [] {
      Utf16Astral(s[1..]);
    }
  }
}
