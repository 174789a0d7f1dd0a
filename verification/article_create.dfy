/** `CreateArticleAPIView.post` of authors/apps/articles/views.py: the
    article slug built from the title and a UUID, and the request fields the
    view overwrites before the article is saved. `slugify`, `uuid4` and the
    serializer's field validation are parameters. */
module ArticleCreate {
  import opened Wrappers
  import opened Text
  import JwtBackend

  /** `s.replace(from, to)` for single characters. */
  function Replace(s: string, from: char, to: char): (r: string)
    ensures |r| == |s|
    ensures forall i :: 0 <= i < |s| ==> r[i] == (if s[i] == from then to else s[i])
    ensures from != to ==> from !in r
  {
    if s == [] then [] else [if s[0] == from then to else s[0]] + Replace(s[1..], from, to)
  }

  /** `s.index(c)`: the first position of `c`. */
  function IndexOf(s: string, c: char): (i: nat)
    requires c in s
    ensures i < |s| && s[i] == c && c !in s[..i]
  {
    if s[0] == c then 0 else 1 + IndexOf(s[1..], c)
  }

  /** `s.split(sep)`: the pieces between occurrences of `sep`, empty pieces
      kept, so there is always one piece more than there are separators. */
  function SplitOn(s: string, sep: char): (parts: seq<string>)
    ensures |parts| > 0
    ensures forall k :: 0 <= k < |parts| ==> sep !in parts[k]
    decreases |s|
  {
    if sep !in s then [s]
    else
      var i := IndexOf(s, sep);
      [s[..i]] + SplitOn(s[i + 1..], sep)
  }

  /** The last piece is a suffix of the string that starts it or follows
      a separator. */
  lemma {:induction false} SplitOnLast(s: string, sep: char)
    ensures var parts := SplitOn(s, sep); var last := parts[|parts| - 1];
      && |last| <= |s| && last == s[|s| - |last|..]
      && (|last| == |s| || s[|s| - |last| - 1] == sep)
    decreases |s|
  {
    if sep in s {
      var i := IndexOf(s, sep);
      var tail := s[i + 1..];
      SplitOnLast(tail, sep);
      var rest := SplitOn(tail, sep);
      var last := rest[|rest| - 1];
      assert SplitOn(s, sep)[|SplitOn(s, sep)| - 1] == last;
      assert tail[|tail| - |last|..] == s[|s| - |last|..];
      assert |last| < |tail| ==> tail[|tail| - |last| - 1] == s[|s| - |last| - 1];
    }
  }

  /** `sep.join(parts)`. */
  function JoinOn(parts: seq<string>, sep: char): string
    requires |parts| > 0
  {
    if |parts| == 1 then parts[0] else parts[0] + [sep] + JoinOn(parts[1..], sep)
  }

  lemma JoinCons(first: string, rest: seq<string>, sep: char)
    requires |rest| > 0
    ensures JoinOn([first] + rest, sep) == first + [sep] + JoinOn(rest, sep)
  {
    assert ([first] + rest)[1..] == rest;
  }

  /** Splitting loses nothing: joining the pieces back gives the string. */
  lemma {:induction false} SplitOnJoin(s: string, sep: char)
    ensures JoinOn(SplitOn(s, sep), sep) == s
    decreases |s|
  {
    if sep in s {
      var i := IndexOf(s, sep);
      SplitOnJoin(s[i + 1..], sep);
      var rest := SplitOn(s[i + 1..], sep);
      assert SplitOn(s, sep) == [s[..i]] + rest;
      JoinCons(s[..i], rest, sep);
      assert s == s[..i] + [sep] + s[i + 1..];
    }
  }

  /** `s.split(sep)[-1]`: the text after the last separator, or the whole
      string when there is none. */
  function LastGroup(s: string, sep: char): (g: string)
    ensures sep !in g
    ensures |g| <= |s| && g == s[|s| - |g|..]
    ensures |g| == |s| || s[|s| - |g| - 1] == sep
  {
    SplitOnLast(s, sep);
    var parts := SplitOn(s, sep);
    parts[|parts| - 1]
  }

  /** Two suffixes that each follow a separator (or start the string) and
      hold no separator are the same suffix. */
  lemma SuffixStart(s: string, sep: char, k: nat, m: nat)
    requires k <= |s| && 0 < m <= |s|
    requires sep !in s[k..] && (k == 0 || s[k - 1] == sep)
    requires sep !in s[m..] && s[m - 1] == sep
    ensures k == m
  {
  }

  /** The last piece of `a + sep + b` is `b` whenever `b` has no `sep`. */
  lemma LastGroupAfterSeparator(a: string, sep: char, b: string)
    requires sep !in b
    ensures LastGroup(a + [sep] + b, sep) == b
  {
    var s := a + [sep] + b;
    var last := LastGroup(s, sep);
    SplitOnLast(s, sep);
    SuffixStart(s, sep, |s| - |last|, |a| + 1);
    assert last == s[|s| - |b|..] == b;
  }

  /** The article slug: the slugified title with every `_` made `-`, a
      `-`, and the last group of the UUID text. */
  function MakeSlug(slugifiedTitle: string, uuidText: string): (slug: string)
    ensures |slug| > |slugifiedTitle| && slug[|slugifiedTitle|] == '-'
    ensures slug[..|slugifiedTitle|] == Replace(slugifiedTitle, '_', '-')
    ensures '_' !in slug[..|slugifiedTitle|]
    ensures forall i :: 0 <= i < |slugifiedTitle| && slugifiedTitle[i] != '_' ==> slug[i] == slugifiedTitle[i]
    ensures slug[|slugifiedTitle| + 1..] == LastGroup(uuidText, '-')
    ensures LastGroup(slug, '-') == LastGroup(uuidText, '-')
  {
    var prefix := Replace(slugifiedTitle, '_', '-');
    var suffix := LastGroup(uuidText, '-');
    var slug := prefix + "-" + suffix;
    assert slug[..|slugifiedTitle|] == prefix;
    assert slug[|slugifiedTitle| + 1..] == suffix;
    LastGroupAfterSeparator(prefix, '-', suffix);
    slug
  }

  /** `str(uuid)`: 32 lower-case hex digits grouped 8-4-4-4-12 by `-`, as
      section 3 of RFC 4122 lays it out. */
  predicate CanonicalUuid(u: string)
  {
    && |u| == 36
    && u[8] == '-' && u[13] == '-' && u[18] == '-' && u[23] == '-'
    && forall i :: 0 <= i < 36 && i != 8 && i != 13 && i != 18 && i != 23 ==> IsHexLower(u[i])
  }

  /** With a canonical UUID the slug ends in its 12-digit node group, the
      text after the slug's last `-`. */
  lemma SlugEndsWithUuidNode(slugifiedTitle: string, u: string)
    requires CanonicalUuid(u)
    ensures var slug := MakeSlug(slugifiedTitle, u);
      && LastGroup(slug, '-') == u[24..]
      && |u[24..]| == 12
      && (forall i :: 0 <= i < 12 ==> IsHexLower(u[24..][i]))
      && slug == Replace(slugifiedTitle, '_', '-') + "-" + u[24..]
  {
    assert u == u[..23] + ['-'] + u[24..];
    forall i | 0 <= i < 12 ensures u[24..][i] != '-' {
      assert IsHexLower(u[24 + i]);
    }
    LastGroupAfterSeparator(u[..23], '-', u[24..]);
  }

  // ----------------------------------------------------------------- post

  /** The request fields the view writes before validation: `user_id`
      takes the second element of the authentication result, which is the
      raw token, and `slug` is overwritten. */
  function Prepared(article: map<string, string>, token: string, slug: string): (r: map<string, string>)
    ensures forall k :: k in r <==> k in article || k == "user_id" || k == "slug"
    ensures r["user_id"] == token
    ensures r["slug"] == slug
    ensures forall k :: k in article && k != "user_id" && k != "slug" ==> r[k] == article[k]
  {
    assert "user_id" != "slug" by { assert |"user_id"| != |"slug"|; }
    article["user_id" := token]["slug" := slug]
  }

  datatype PostError =
    | NotAuthenticated(outcome: JwtBackend.AuthOutcome)
    | MissingTitle
    | InvalidArticle

  datatype Response = Response(status: int, message: string)

  const Created := Response(201, "Article created successfully.")

  /** The saved articles, in creation order, as the field maps the
      serializer received. */
  class ArticleStore {
    var rows: seq<map<string, string>>

    constructor ()
      ensures rows == []
    {
      rows := [];
    }

    /** `CreateArticleAPIView.post`. `article` is `request.data['article']`
        (an empty map when absent), `auth` what `JWTAuthentication` gives for
        the request, and `isValid` the serializer's field validation. */
    method Post(article: map<string, string>, auth: JwtBackend.AuthOutcome, slugify: string -> string,
                uuidText: string, isValid: map<string, string> -> bool) returns (r: Result<Response, PostError>)
      modifies this
      ensures r == Failure(NotAuthenticated(auth)) <==> !auth.Authenticated?
      ensures r == Failure(MissingTitle) <==> auth.Authenticated? && "title" !in article
      ensures r.Success? <==>
        auth.Authenticated? && "title" in article &&
        isValid(Prepared(article, auth.token, MakeSlug(slugify(article["title"]), uuidText)))
      ensures r.Success? ==>
        && r.value == Created
        && rows == old(rows) + [Prepared(article, auth.token, MakeSlug(slugify(article["title"]), uuidText))]
      ensures r.Failure? ==> rows == old(rows)
    {
      if !auth.Authenticated? {
        return Failure(NotAuthenticated(auth));
      }
      if "title" !in article {
        return Failure(MissingTitle);
      }
      var data := article["user_id" := auth.token];
      var slug := Replace(slugify(article["title"]), '_', '-');
      slug := slug + "-" + LastGroup(uuidText, '-');
      data := data["slug" := slug];
      if !isValid(data) {
        return Failure(InvalidArticle);
      }
      rows := rows + [data];
      r := Success(Created);
    }
  }
}
