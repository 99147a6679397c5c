/**
 * Cluster-based node colouring of the reasoning graph: each concept label is
 * mapped to its cluster (later concepts overriding earlier ones with the same
 * label), and each cluster to a fixed colour, with "lightblue" as fallback.
 */
module Coloring {
  import opened Ontology
  import opened Wrappers

  const DefaultColor: string := "lightblue"

  /** Cluster -> colour. */
  const ClusterColors: map<string, string> := map[
    "AI Ethics" := "green",
    "Model Governance" := "blue",
    "Regulatory Risk" := "orange",
    "Transparency & Explainability" := "purple",
    "Data Protection" := "red"
  ]

  /** No later concept carries the label of `concepts[i]`. */
  predicate LastWithLabel(concepts: seq<Concept>, i: int)
    requires 0 <= i < |concepts|
  {
    forall j :: i < j < |concepts| ==> concepts[j].name != concepts[i].name
  }

  /** The labels of `concepts`. */
  function Labels(concepts: seq<Concept>): set<string> {
    set c | c in concepts :: c.name
  }

  /** `{c["label"]: c["cluster"] for c in concepts}`, built in list order so
      that a later concept overwrites an earlier one with the same label. */
  function ConceptToCluster(concepts: seq<Concept>): (m: map<string, string>)
    ensures m.Keys == Labels(concepts)
  {
    if concepts == [] then map[]
    else
      var prefix := concepts[..|concepts| - 1];
      var last := concepts[|concepts| - 1];
      assert concepts == prefix + [last];
      assert Labels(concepts) == Labels(prefix) + {last.name};
      ConceptToCluster(prefix)[last.name := last.cluster]
  }

  /** A label repeated in the list keeps the cluster of its last occurrence. */
  lemma {:induction false} LastConceptWins(concepts: seq<Concept>, i: int)
    requires 0 <= i < |concepts| && LastWithLabel(concepts, i)
    ensures ConceptToCluster(concepts)[concepts[i].name] == concepts[i].cluster
    decreases |concepts|
  {
    var n := |concepts| - 1;
    if i < n {
      var prefix := concepts[..n];
      assert LastWithLabel(prefix, i);
      assert concepts[n].name != concepts[i].name;
      LastConceptWins(prefix, i);
    }
  }

  /** A dict lookup: the value stored under `key`, if any. */
  function Get(m: map<string, string>, key: string): Option<string> {
    if key in m then Some(m[key]) else None
  }

  /** `cluster_colors.get(concept_to_cluster.get(node, ""), "lightblue")`: the
      colour of the node's cluster, "lightblue" when the node has no cluster
      or its cluster has no colour. */
  function NodeColor(clusters: map<string, string>, node: string): (color: string)
    ensures node !in clusters ==> color == DefaultColor
    ensures node in clusters && clusters[node] in ClusterColors ==> color == ClusterColors[clusters[node]]
    ensures node in clusters && clusters[node] !in ClusterColors ==> color == DefaultColor
    ensures color in {"green", "blue", "orange", "purple", "red", DefaultColor}
  {
    Get(ClusterColors, Get(clusters, node).GetOr("")).GetOr(DefaultColor)
  }

  /** One colour per node, in node order: "lightblue" for a node that is no
      concept's label or whose cluster has no colour, otherwise the colour of
      the cluster of the last concept carrying that label. */
  function NodeColors(concepts: seq<Concept>, nodes: seq<string>): (colors: seq<string>)
    ensures |colors| == |nodes|
    ensures forall k :: 0 <= k < |nodes| && (forall c :: c in concepts ==> c.name != nodes[k]) ==>
      colors[k] == DefaultColor
    ensures forall k, i ::
      (0 <= k < |nodes| && 0 <= i < |concepts| && concepts[i].name == nodes[k] && LastWithLabel(concepts, i)) ==>
      colors[k] == if concepts[i].cluster in ClusterColors then ClusterColors[concepts[i].cluster] else DefaultColor
    ensures forall k :: 0 <= k < |nodes| ==>
      colors[k] in {"green", "blue", "orange", "purple", "red", DefaultColor}
  {
    var clusters := ConceptToCluster(concepts);
    forall i | 0 <= i < |concepts| && LastWithLabel(concepts, i)
      ensures clusters[concepts[i].name] == concepts[i].cluster
    {
      LastConceptWins(concepts, i);
    }
    seq(|nodes|, k requires 0 <= k < |nodes| => NodeColor(clusters, nodes[k]))
  }
}
