/** The two handlers of the catalogue bot: `new_channel_post` files a photo
    post of the channel, and `inline_search` answers an inline query from
    the files. The store is passed to them instead of being a global. */
module Bot {
  import opened Text
  import opened Tags
  import opened Catalogue

  /** `cache_time` of every answer to an inline query. */
  const CacheTime := 10

  /** `limit` that `inline_search` passes to `search_photos`. */
  const SearchLimit := 50

  datatype Option<T> = None | Some(value: T)

  /** One size of a posted photo; a post lists them smallest first. */
  datatype PhotoSize = PhotoSize(fileId: string)

  /** The fields of a channel post that the handler reads. */
  datatype ChannelPost = ChannelPost(messageId: int, photo: seq<PhotoSize>, caption: Option<string>, date: Timestamp)

  /** `InlineQueryResultCachedPhoto(id=..., photo_file_id=..., caption=...)`. */
  datatype CachedPhoto = CachedPhoto(id: string, photoFileId: string, caption: string)

  /** The arguments of `query.answer`. */
  datatype Answer = Answer(results: seq<CachedPhoto>, cacheTime: int)

  /** `message.caption or ""`. */
  function CaptionText(post: ChannelPost): string {
    match post.caption
    case Some(c) => c
    case None => ""
  }

  /** `new_channel_post`: a post with a photo is saved under its message id
      with the largest size's `file_id`, its caption and the caption's tags;
      a post without one changes nothing. */
  method NewChannelPost(store: PhotoStore, post: ChannelPost)
    modifies store
    ensures post.photo == [] ==> store.rows == old(store.rows)
    ensures post.photo != [] ==>
              var caption := CaptionText(post);
              store.rows == Upsert(old(store.rows), post.messageId,
                                   Photo(post.photo[|post.photo| - 1].fileId, caption, ExtractTags(caption), post.date))
  {
    if post.photo != [] {
      var fileId := post.photo[|post.photo| - 1].fileId;
      var caption := CaptionText(post);
      var tags := ExtractTags(caption);
      store.SavePhoto(post.messageId, fileId, caption, tags, post.date);
    }
  }

  /** A saved post passes the `WHERE` clause for any query that, once
      lower-cased, equals a lower-cased piece of its caption: `SUNSET`
      matches `Beautiful Sunset`. */
  lemma FoundByCaption(fileId: string, caption: string, date: Timestamp, piece: string, text: string)
    requires Contains(caption, piece) && Lower(text) == Lower(piece)
    ensures Matches(Photo(fileId, caption, ExtractTags(caption), date), Lower(text))
  {
    ContainsLower(caption, piece);
  }

  /** A saved post passes the `WHERE` clause for any query that, once
      lower-cased, equals a lower-cased piece of its stored tags string,
      including a piece that spans the space joining two tags and so need
      not occur in the caption (`a b` for the caption `#a x #b`). */
  lemma FoundByTag(fileId: string, caption: string, date: Timestamp, piece: string, text: string)
    requires Contains(ExtractTags(caption), piece) && Lower(text) == Lower(piece)
    ensures Matches(Photo(fileId, caption, ExtractTags(caption), date), Lower(text))
  {
    ContainsLower(ExtractTags(caption), piece);
  }

  /** `query.query.lower().strip()`: empty exactly when the raw query is
      nothing but separators, and already lower-case, so the second
      lower-casing inside `search_photos` changes nothing. */
  function NormalizeQuery(raw: string): (text: string)
    ensures text == [] <==> AllSpace(raw)
    ensures Lower(text) == text
  {
    var lowered := Lower(raw);
    LowerKeepsSpaces(raw);
    var text := Strip(lowered);
    PieceOfLowerIsLower(raw, text);
    text
  }

  /** The cached-photo result built for one row found. */
  function CachedOf(h: Hit): CachedPhoto {
    CachedPhoto(IntToString(h.messageId), h.fileId, h.caption)
  }

  /** Rows in strictly descending `message_id` order give results with
      pairwise distinct ids, as inline answers require. */
  lemma DistinctIds(hits: seq<Hit>)
    requires Descending(MessageIds(hits))
    ensures forall i, j :: 0 <= i < j < |hits| ==> CachedOf(hits[i]).id != CachedOf(hits[j]).id
  {
    forall i, j | 0 <= i < j < |hits| ensures CachedOf(hits[i]).id != CachedOf(hits[j]).id {
      assert MessageIds(hits)[i] > MessageIds(hits)[j];
      IntToStringInjective(hits[i].messageId, hits[j].messageId);
    }
  }

  /** The loop of `inline_search` that turns each row found into a result,
      keeping their order. */
  method CachedResults(rows: seq<Hit>) returns (results: seq<CachedPhoto>)
    ensures |results| == |rows|
    ensures forall i :: 0 <= i < |rows| ==> results[i] == CachedOf(rows[i])
  {
    results := [];
    for i := 0 to |rows|
      invariant |results| == i
      invariant forall j :: 0 <= j < i ==> results[j] == CachedOf(rows[j])
    {
      results := results + [CachedOf(rows[i])];
    }
  }

  /** The rows a search finds give results with pairwise distinct ids. */
  lemma SearchIdsDistinct(t: Table, q: string, limit: nat)
    ensures var hits := Search(t, q, limit);
            forall i, j :: 0 <= i < j < |hits| ==> CachedOf(hits[i]).id != CachedOf(hits[j]).id
  {
    SearchIsAnswer(t, q, limit);
    DistinctIds(Search(t, q, limit));
  }

  /** `inline_search`. A query that is blank after normalising is answered
      with no results; any other with one cached photo per row found, in
      the order found, its id the decimal `message_id`. Both answers carry
      `cache_time` 10, and no two results share an id. */
  method InlineSearch(store: PhotoStore, query: string) returns (answer: Answer)
    ensures answer.cacheTime == CacheTime
    ensures AllSpace(query) ==> answer.results == []
    ensures !AllSpace(query) ==>
              var hits := Search(store.rows, NormalizeQuery(query), SearchLimit);
              && |answer.results| == |hits|
              && forall i :: 0 <= i < |hits| ==> answer.results[i] == CachedOf(hits[i])
    ensures forall i, j :: 0 <= i < j < |answer.results| ==> answer.results[i].id != answer.results[j].id
  {
    var text := NormalizeQuery(query);
    if text == [] {
      answer := Answer([], CacheTime);
      return;
    }
    var rows := store.SearchPhotos(text, SearchLimit);
    var results := CachedResults(rows);
    SearchIdsDistinct(store.rows, text, SearchLimit);
    answer := Answer(results, CacheTime);
  }
}
