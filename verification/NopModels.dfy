/** The orchestration data model: task graphs as they arrive on the wire. */
module NopModels {
  import opened Wrappers

  datatype DagNode = DagNode(
    id: string,
    action: string,
    inputFrom: Option<seq<string>>,
    minRequired: nat,
    condition: Option<string>,
    compensateAction: Option<string>)

  datatype DagEdge = DagEdge(from: string, to: string)

  datatype TaskDag = TaskDag(nodes: seq<DagNode>, edges: seq<DagEdge>)

  function Ids(nodes: seq<DagNode>): set<string> {
    set n | n in nodes :: n.id
  }

  ghost predicate DistinctIds(nodes: seq<DagNode>) {
    forall i, j :: 0 <= i < j < |nodes| ==> nodes[i].id != nodes[j].id
  }

  const MAX_DAG_NODES: nat := 32
  const MAX_CONDITION_LENGTH: nat := 512
}
