/** The article route: it classifies the topic, picks the system prompt of
    that kind, asks the backend for an article and resolves the image markers
    in the answer. */
module Generate {
  import opened Common
  import opened Strings
  import opened Placeholders

  /** The words that make a topic a product review or buying guide. */
  const ReviewWords: seq<string> := ["推荐", "排行", "值得买", "二手", "性价比"]

  /** The words that make a topic a how-to. */
  const TutorialWords: seq<string> := ["怎么", "如何", "步骤", "教程", "指南", "验机"]

  /** `t.includes(words[0]) || t.includes(words[1]) || …`, evaluated left to
      right. */
  predicate IncludesAny(t: string, words: seq<string>)
    decreases |words|
  {
    words != [] && (Includes(t, words[0]) || IncludesAny(t, words[1..]))
  }

  /** The chain holds exactly when some word of the list occurs in t. */
  lemma {:induction false} IncludesAnyIff(t: string, words: seq<string>)
    ensures IncludesAny(t, words) <==> exists i :: 0 <= i < |words| && Includes(t, words[i])
    decreases |words|
  {
    if words != [] {
      IncludesAnyIff(t, words[1..]);
      if IncludesAny(t, words[1..]) {
        var i :| 0 <= i < |words[1..]| && Includes(t, words[1..][i]);
        assert Includes(t, words[i + 1]);
      }
      if exists i :: 0 <= i < |words| && Includes(t, words[i]) {
        var i :| 0 <= i < |words| && Includes(t, words[i]);
        if i > 0 {
          assert Includes(t, words[1..][i - 1]);
        }
      }
    }
  }

  /** The topic lower-cased, then tested for review words first and for
      tutorial words second. */
  function DetectArticleType(topic: string): ArticleType
  {
    var t := ToLower(topic);
    if IncludesAny(t, ReviewWords) then Review
    else if IncludesAny(t, TutorialWords) then Tutorial
    else General
  }

  /** Some word of the list occurs in the topic. */
  predicate Mentions(topic: string, words: seq<string>)
  {
    exists i :: 0 <= i < |words| && Includes(topic, words[i])
  }

  lemma {:induction false} NoAsciiLetterWords(words: seq<string>, t: string)
    requires forall i :: 0 <= i < |words| ==> NoAsciiLetter(words[i])
    ensures IncludesAny(ToLower(t), words) <==> Mentions(t, words)
  {
    IncludesAnyIff(ToLower(t), words);
    forall i | 0 <= i < |words| ensures Includes(ToLower(t), words[i]) <==> Includes(t, words[i]) {
      LowerKeepsOccurrences(t, words[i]);
    }
  }

  lemma KeywordsHaveNoAsciiLetter()
    ensures forall i :: 0 <= i < |ReviewWords| ==> NoAsciiLetter(ReviewWords[i])
    ensures forall i :: 0 <= i < |TutorialWords| ==> NoAsciiLetter(TutorialWords[i])
  {
  }

  /** The classification, stated on the topic as given, since lower-casing
      cannot add or remove a word without ASCII letters: a review word wins
      over any tutorial word, a tutorial word alone gives a tutorial, and
      anything else is a general article. */
  lemma DetectArticleTypeSpec(topic: string)
    ensures DetectArticleType(topic) == Review <==> Mentions(topic, ReviewWords)
    ensures DetectArticleType(topic) == Tutorial <==> !Mentions(topic, ReviewWords) && Mentions(topic, TutorialWords)
    ensures DetectArticleType(topic) == General <==> !Mentions(topic, ReviewWords) && !Mentions(topic, TutorialWords)
  {
    KeywordsHaveNoAsciiLetter();
    NoAsciiLetterWords(ReviewWords, topic);
    NoAsciiLetterWords(TutorialWords, topic);
  }

  /** A word standing at some offset is mentioned. */
  lemma MentionedAt(topic: string, words: seq<string>, i: nat, p: nat)
    requires i < |words| && StartsAt(topic, words[i], p)
    ensures Mentions(topic, words)
  {
    IncludesIff(topic, words[i]);
  }

  /** No word is mentioned when no character of the topic starts one. */
  lemma NotMentioned(topic: string, words: seq<string>)
    requires forall i :: 0 <= i < |words| ==> words[i] != [] && words[i][0] !in topic
    ensures !Mentions(topic, words)
  {
    forall i | 0 <= i < |words| ensures !Includes(topic, words[i]) {
      IncludesIff(topic, words[i]);
    }
  }

  /** A topic with a review word is a review. */
  lemma ReviewExample()
    ensures DetectArticleType("二手手机推荐") == Review
  {
    var t := "二手手机推荐";
    assert StartsAt(t, ReviewWords[0], 4) by { assert t[4..6] == "推荐"; }
    MentionedAt(t, ReviewWords, 0, 4);
    DetectArticleTypeSpec(t);
  }

  /** A topic with a tutorial word and no review word is a tutorial. */
  lemma TutorialExample()
    ensures DetectArticleType("如何更换电池") == Tutorial
  {
    var t := "如何更换电池";
    assert StartsAt(t, TutorialWords[1], 0) by { assert t[0..2] == "如何"; }
    MentionedAt(t, TutorialWords, 1, 0);
    NotMentioned(t, ReviewWords);
    DetectArticleTypeSpec(t);
  }

  /** A topic with neither kind of word is a general article. */
  lemma GeneralExample()
    ensures DetectArticleType("量子计算是什么") == General
  {
    var t := "量子计算是什么";
    NotMentioned(t, ReviewWords);
    NotMentioned(t, TutorialWords);
    DetectArticleTypeSpec(t);
  }

  /** The type string the route logs and returns. */
  function TypeName(k: ArticleType): (r: string)
    ensures r in {"REVIEW", "TUTORIAL", "GENERAL"}
  {
    match k
    case Review => "REVIEW"
    case Tutorial => "TUTORIAL"
    case General => "GENERAL"
  }

  /** The template `getSystemPrompt` uses for a type string: the review one
      only for "REVIEW", the tutorial one only for "TUTORIAL", the general one
      for every other string. */
  function TemplateFor(articleType: string): (k: ArticleType)
    ensures k == Review <==> articleType == "REVIEW"
    ensures k == Tutorial <==> articleType == "TUTORIAL"
  {
    if articleType == "REVIEW" then Review
    else if articleType == "TUTORIAL" then Tutorial
    else General
  }

  /** Naming a kind and selecting by that name gives the kind back, so the
      route always prompts with the template of the kind it detected. */
  lemma TemplateForTypeName(k: ArticleType)
    ensures TemplateFor(TypeName(k)) == k
  {
  }

  /** `getSystemPrompt(type, topic)`. */
  function GetSystemPrompt(articleType: string, topic: string): Prompt
  {
    ArticlePrompt(TemplateFor(articleType), topic)
  }

  /** The user message of the article request. */
  function UserMessage(topic: string): string
  {
    "开始撰写关于“" + topic + "”的文章。"
  }

  /** The JSON the route answers with: the article and its type, or an error
      with its HTTP status. */
  datatype GenerateResponse = Article(content: string, articleType: string) | ErrorResponse(status: nat, error: ErrorText)

  /** The request the route sends for a topic. */
  function ArticleRequest(topic: string): (req: Request)
    ensures req.system.ArticlePrompt? && req.system.kind == DetectArticleType(topic) && req.system.topic == topic
  {
    Request(GetSystemPrompt(TypeName(DetectArticleType(topic)), topic), UserMessage(topic))
  }

  /** `POST /api/generate`. `keyConfigured` says whether the API key is set.
      Requests sent to the backend are returned in order. Without a key, and
      without a string topic (the runtime throws on `toLowerCase`), nothing is
      sent; otherwise exactly one request is sent, a failed call is a 500 with
      the call's message, and a completed one is the answer with its image
      markers replaced one after the other, as the route does. */
  method Post(keyConfigured: bool, topic: Field<string>, backend: Backend, lookup: ImageLookup)
    returns (resp: GenerateResponse, requests: seq<Request>)
    ensures !keyConfigured ==> resp == ErrorResponse(500, Text("Key 未配置")) && requests == []
    ensures keyConfigured && !topic.Present? ==> resp == ErrorResponse(500, RuntimeMessage) && requests == []
    ensures keyConfigured && topic.Present? ==>
              var req := ArticleRequest(topic.value);
              && requests == [req]
              && (backend(req).Failed? ==> resp == ErrorResponse(500, Text(backend(req).message)))
              && (backend(req).Completed? ==>
                    var text := backend(req).text;
                    resp == Article(ReplaceInOrder(text, Substitutions(MatchAll(text), ImageReplacement(lookup))),
                                    TypeName(DetectArticleType(topic.value))))
  {
    if !keyConfigured {
      return ErrorResponse(500, Text("Key 未配置")), [];
    }
    if !topic.Present? {
      return ErrorResponse(500, RuntimeMessage), [];
    }
    var articleType := TypeName(DetectArticleType(topic.value));
    var req := Request(GetSystemPrompt(articleType, topic.value), UserMessage(topic.value));
    requests := [req];
    match backend(req)
    case Failed(message) =>
      resp := ErrorResponse(500, Text(message));
    case Completed(content) =>
      var resolved := ResolveSequentially(content, lookup);
      resp := Article(resolved, articleType);
  }
}
