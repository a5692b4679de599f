/** Tag extraction for a channel post: the caption's words that start with
    `#`, each without that sign, joined with single spaces. */
module Tags {
  import opened Text

  predicate IsHashWord(w: string) {
    |w| > 0 && w[0] == '#'
  }

  /** The list comprehension `[w[1:] for w in words if w.startswith("#")]`. */
  function HashTags(words: seq<string>): (tags: seq<string>)
    ensures |tags| <= |words|
  {
    if words == [] then []
    else (if IsHashWord(words[0]) then [words[0][1..]] else []) + HashTags(words[1..])
  }

  /** The stored tags string of a caption. */
  function ExtractTags(caption: string): string {
    Join(HashTags(Words(caption)))
  }

  /** Tags keep the order of their words: extracting from two runs of words
      is extracting from each and putting the results side by side. */
  lemma {:induction false} HashTagsAppend(a: seq<string>, b: seq<string>)
    ensures HashTags(a + b) == HashTags(a) + HashTags(b)
  {
    if a != [] {
      assert (a + b)[0] == a[0];
      assert (a + b)[1..] == a[1..] + b;
      HashTagsAppend(a[1..], b);
    } else {
      assert a + b == b;
    }
  }

  /** A string is a tag exactly when it is a `#`-word without its `#`. */
  lemma {:induction false} HashTagsMembership(words: seq<string>, t: string)
    ensures t in HashTags(words) <==>
            exists k :: 0 <= k < |words| && IsHashWord(words[k]) && t == words[k][1..]
  {
    if words != [] {
      HashTagsMembership(words[1..], t);
      if t in HashTags(words[1..]) {
        var k :| 0 <= k < |words[1..]| && IsHashWord(words[1..][k]) && t == words[1..][k][1..];
        assert IsHashWord(words[k + 1]) && t == words[k + 1][1..];
      }
      if exists k :: 0 <= k < |words| && IsHashWord(words[k]) && t == words[k][1..] {
        var k :| 0 <= k < |words| && IsHashWord(words[k]) && t == words[k][1..];
        if k > 0 {
          assert words[1..][k - 1] == words[k];
        }
      }
    }
  }

  lemma {:induction false} NoHashWordsNoTags(words: seq<string>)
    requires forall k :: 0 <= k < |words| ==> !IsHashWord(words[k])
    ensures HashTags(words) == []
  {
    if words != [] {
      NoHashWordsNoTags(words[1..]);
    }
  }

  /** A caption without any `#`-word, the empty caption of a post without
      one among them, gets the empty tags string. */
  lemma NoHashWordNoTags(caption: string)
    requires forall k :: 0 <= k < |Words(caption)| ==> !IsHashWord(Words(caption)[k])
    ensures ExtractTags(caption) == ""
    ensures ExtractTags("") == ""
  {
    NoHashWordsNoTags(Words(caption));
  }

  /** When no `#`-word is the bare sign, splitting the stored tags string
      gives back exactly the extracted tags, in caption order. */
  lemma TagsRoundTrip(caption: string)
    requires forall k :: 0 <= k < |Words(caption)| && IsHashWord(Words(caption)[k]) ==> |Words(caption)[k]| > 1
    ensures Words(ExtractTags(caption)) == HashTags(Words(caption))
  {
    var words := Words(caption);
    var tags := HashTags(words);
    forall i | 0 <= i < |tags| ensures IsWord(tags[i]) {
      HashTagsMembership(words, tags[i]);
      assert tags[i] in tags;
      var k :| 0 <= k < |words| && IsHashWord(words[k]) && tags[i] == words[k][1..];
      assert IsWord(words[k]);
      forall j | 0 <= j < |tags[i]| ensures !IsSpace(tags[i][j]) {
        assert tags[i][j] == words[k][j + 1];
      }
    }
    WordsOfJoin(tags);
  }

  /** Every tag of a caption is a substring of its stored tags string. */
  lemma TagInTags(caption: string, k: nat)
    requires k < |Words(caption)| && IsHashWord(Words(caption)[k])
    ensures Contains(ExtractTags(caption), Words(caption)[k][1..])
  {
    var words := Words(caption);
    var t := words[k][1..];
    HashTagsMembership(words, t);
    var tags := HashTags(words);
    var i :| 0 <= i < |tags| && tags[i] == t;
    JoinContains(tags, i);
  }
}
