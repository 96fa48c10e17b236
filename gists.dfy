/**
 * The gist records fetched from GitHub's GraphQL API, the display title of a
 * gist, and the flattening of the query's `edges { node }` list into gists.
 */
module Gists {

  /** The language GitHub detected for a file; only its name is kept. */
  datatype GistFileLanguage = GistFileLanguage(name: string)

  datatype GistFile = GistFile(id: string, name: string, text: string, language: GistFileLanguage)

  /**
   * A gist as the list query returns it. A missing description is the empty
   * string: the title rule below tests it for truthiness only.
   */
  datatype Gist = Gist(
    createdAt: string,
    description: string,
    url: string,
    id: string,
    isPublic: bool,
    name: string,
    files: seq<GistFile>)

  /** One element of the connection's `edges` array. */
  datatype Edge = Edge(node: Gist)

  /**
   * The title can be computed without a run-time error: either there is a
   * description, or there is a first file to take the name of.
   */
  predicate HasTitle(gist: Gist)
  {
    gist.description != "" || |gist.files| > 0
  }

  /**
   * `nameForGist` (imported by the views as `titleForGist`): the description
   * when it is non-empty, otherwise the name of the first file.
   */
  function NameForGist(gist: Gist): (title: string)
    requires HasTitle(gist)
    ensures gist.description != "" ==> title == gist.description
    ensures gist.description == "" ==> |gist.files| > 0 && title == gist.files[0].name
    ensures title == gist.description || (|gist.files| > 0 && title == gist.files[0].name)
  {
    if gist.description != "" then gist.description else gist.files[0].name
  }

  /**
   * The title is never empty for a gist whose first file has a name, which
   * GitHub requires of every file.
   */
  lemma NameForGistNonEmpty(gist: Gist)
    requires |gist.files| > 0 && gist.files[0].name != ""
    ensures NameForGist(gist) != ""
  {
  }

  /**
   * The title depends on nothing but the description and, when that is empty,
   * the first file's name: URL, visibility, contents and later files do not
   * matter.
   */
  lemma NameForGistDependsOnDescriptionAndFirstFile(g: Gist, h: Gist)
    requires HasTitle(g) && HasTitle(h)
    requires g.description == h.description
    requires g.description == "" ==> g.files[0].name == h.files[0].name
    ensures NameForGist(g) == NameForGist(h)
  {
  }

  /** `edges.map(edge => edge.node)`: one gist per edge, in the same order. */
  function Nodes(edges: seq<Edge>): (gists: seq<Gist>)
    ensures |gists| == |edges|
    ensures forall i :: 0 <= i < |edges| ==> gists[i] == edges[i].node
  {
    if edges == [] then [] else [edges[0].node] + Nodes(edges[1..])
  }

  /** Flattening commutes with concatenation: it never reorders across a split. */
  lemma NodesAppend(a: seq<Edge>, b: seq<Edge>)
    ensures Nodes(a + b) == Nodes(a) + Nodes(b)
  {
  }
}
