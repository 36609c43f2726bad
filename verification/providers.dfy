/** The providers the commands accept on `-provider`, and the
    case-insensitive membership test both command generations use. */
module Providers {
  import opened Text

  const GitHubName := "github"
  const GitLabName := "gitlab"
  const BitbucketName := "bitbucket"

  /** The supported providers, in the order the usage message lists them. */
  const Names: seq<string> := [GitHubName, GitLabName, BitbucketName]

  /** The usage error for a missing or unknown provider. */
  const ProviderError := "-provider required, valid values are github, gitlab, bitbucket"

  /** The linear search of `ValidProvider` over `names`: some entry equals the
      lowercased argument. */
  function AnyIs(names: seq<string>, lowered: string): (found: bool)
    ensures found <==> lowered in names
  {
    if names == [] then false
    else names[0] == lowered || AnyIs(names[1..], lowered)
  }

  /** `ValidProvider`: the argument names a supported provider in any
      letter case. */
  function ValidProvider(s: string): (ok: bool)
    ensures ok <==> ToLower(s) == GitHubName || ToLower(s) == GitLabName || ToLower(s) == BitbucketName
  {
    AnyIs(Names, ToLower(s))
  }

  /** The message lists exactly the supported names, comma separated. */
  lemma ProviderErrorListsNames()
    ensures ProviderError == "-provider required, valid values are " + Join(Names, ", ")
  {
  }

  /** An absent provider is not a valid one. */
  lemma EmptyIsInvalid()
    ensures !ValidProvider("")
  {
  }

  /** Changing the ASCII case of any letters does not change the verdict. */
  lemma {:induction false} CaseInsensitive(s: string)
    ensures ValidProvider(ToUpperAscii(s)) == ValidProvider(s)
  {
    var u := ToUpperAscii(s);
    forall i | 0 <= i < |s| ensures ToLower(u)[i] == ToLower(s)[i] {
      LowerOfUpper(s[i]);
    }
    assert ToLower(u) == ToLower(s);
  }

  /** Every spelling of a supported name that uppercases some of its letters
      is accepted. */
  lemma {:induction false} AcceptsEveryCasing(name: string, s: string)
    requires name in Names
    requires |s| == |name|
    requires forall i :: 0 <= i < |s| ==> s[i] == name[i] || s[i] == UpperAscii(name[i])
    ensures ValidProvider(s)
  {
    assert forall k :: 0 <= k < |name| ==> 'a' <= name[k] <= 'z' by {
      if name == GitHubName {
      } else if name == GitLabName {
      } else {
        assert name == BitbucketName;
      }
    }
    LowerOfCasing(name, s);
  }

  /** Lowercasing a casing of a lowercase ASCII word gives back the word. */
  lemma LowerOfCasing(name: string, s: string)
    requires forall k :: 0 <= k < |name| ==> 'a' <= name[k] <= 'z'
    requires |s| == |name|
    requires forall i :: 0 <= i < |s| ==> s[i] == name[i] || s[i] == UpperAscii(name[i])
    ensures ToLower(s) == name
  {
    forall i | 0 <= i < |s| ensures ToLower(s)[i] == name[i] {
      assert 'a' <= name[i] <= 'z';
    }
  }

  /** The lowercase mapping is Unicode's, not ASCII's: the Kelvin sign
      U+212A lowers to 'k', so this spelling of "bitbucket" is accepted. */
  lemma KelvinSignSpelling()
    ensures ValidProvider("BITBUC\U{212A}ET")
  {
    assert ToLower("BITBUC\U{212A}ET") == BitbucketName;
  }

  /** Anything that is not a spelling of the three names is rejected. */
  lemma OtherNamesRejected()
    ensures !ValidProvider("git")
    ensures !ValidProvider("svn")
    ensures !ValidProvider(" github")
  {
    assert ToLower(" github") != GitHubName by { assert |ToLower(" github")| == 7; }
  }
}
