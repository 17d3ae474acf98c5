/**
 The MQTT names of a TV: its slug (the name lower-cased, spaces turned into
 underscores) and the command topic "kidslock/<slug>/set" that the handler
 listens on.
 */
module Topics {

  /** Lower-casing of one character; only ASCII 'A'..'Z' change. */
  function LowerChar(c: char): char
  {
    if 'A' <= c <= 'Z' then (c as int + 32) as char else c
  }

  /** One character of a replace(" ", "_"). */
  function UnderscoreChar(c: char): char
  {
    if c == ' ' then '_' else c
  }

  /** The string lower-cased, character by character. */
  function Lower(s: string): (r: string)
    ensures |r| == |s|
    ensures forall i :: 0 <= i < |s| ==> r[i] == LowerChar(s[i])
  {
    if s == [] then [] else [LowerChar(s[0])] + Lower(s[1..])
  }

  /** The string with every space replaced by an underscore. */
  function ReplaceSpaces(s: string): (r: string)
    ensures |r| == |s|
    ensures forall i :: 0 <= i < |s| ==> r[i] == UnderscoreChar(s[i])
  {
    if s == [] then [] else [UnderscoreChar(s[0])] + ReplaceSpaces(s[1..])
  }

  /** The slug of a TV name: lower-case first, then spaces to underscores. */
  function Slug(name: string): (r: string)
    ensures |r| == |name|
    ensures forall i :: 0 <= i < |name| ==> r[i] == UnderscoreChar(LowerChar(name[i]))
  {
    ReplaceSpaces(Lower(name))
  }

  const TopicPrefix: string := "kidslock/"
  const SetSuffix: string := "/set"

  /** The topic on which a TV accepts "ON" and "OFF". */
  function SetTopic(name: string): string
  {
    TopicPrefix + Slug(name) + SetSuffix
  }

  /** A slug holds neither spaces nor ASCII capitals. */
  lemma SlugIsNormal(name: string)
    ensures forall i :: 0 <= i < |Slug(name)| ==> Slug(name)[i] != ' ' && !('A' <= Slug(name)[i] <= 'Z')
  {
  }

  /** Taking the slug of a slug changes nothing. */
  lemma SlugIdempotent(name: string)
    ensures Slug(Slug(name)) == Slug(name)
  {
    var s := Slug(name);
    assert forall i :: 0 <= i < |s| ==> Slug(s)[i] == s[i];
  }

  /** Two TVs share a command topic exactly when their slugs coincide. */
  lemma SetTopicMatchesSlug(a: string, b: string)
    ensures SetTopic(a) == SetTopic(b) <==> Slug(a) == Slug(b)
  {
    if SetTopic(a) == SetTopic(b) {
      var ta, tb := SetTopic(a), SetTopic(b);
      assert |Slug(a)| == |Slug(b)|;
      assert Slug(a) == ta[|TopicPrefix|..|ta| - |SetSuffix|];
      assert Slug(b) == tb[|TopicPrefix|..|tb| - |SetSuffix|];
    }
  }

  /** Two names whose characters have the same slug characters have the same slug. */
  lemma SameSlugPointwise(a: string, b: string)
    requires |a| == |b|
    requires forall i :: 0 <= i < |a| ==> UnderscoreChar(LowerChar(a[i])) == UnderscoreChar(LowerChar(b[i]))
    ensures Slug(a) == Slug(b)
  {
  }

  /** Distinct names can share a command topic. */
  lemma DistinctNamesShareTopic()
    ensures "Kid TV" != "kid_tv"
    ensures SetTopic("Kid TV") == SetTopic("kid_tv")
  {
    var a, b := "Kid TV", "kid_tv";
    assert a[0] == 'K' && b[0] == 'k';
    SameSlugPointwise(a, b);
  }
}
