/**
 * `closestPhxBinding(el, binding, borderEl)` of assets/js/phoenix_live_view/utils.js:
 * the nearest element, starting with `el` itself, that carries the attribute
 * `binding` and is not disabled, searched upwards without passing the border
 * element, a LiveView root, or the top of the element tree.
 *
 * The DOM is given as the chain of nodes the walk can visit: `chain[0]` is `el`
 * and `chain[i + 1]` is `chain[i].parentElement || chain[i].parentNode`; the
 * chain ends where that parent is null.
 */
module AncestorBinding {

  import opened Wrappers

  /**
   * What the walk asks of a node: its identity (for `isSameNode`), its
   * attributes (for `matches('[binding]')`), the `disabled` property, whether
   * `nodeType === 1`, and whether it matches the LiveView root selector.
   */
  datatype Node = Node(id: nat, attributes: set<string>, disabled: bool, isElement: bool, isViewRoot: bool)

  /** The test of line 39: the node carries the binding and is not disabled. */
  predicate IsBound(n: Node, binding: string)
  {
    binding in n.attributes && !n.disabled
  }

  /** The loop condition of line 41 fails at `n`: after a step onto `n` the walk ends without testing it. */
  predicate EndsWalk(n: Node, border: Option<Node>)
  {
    !n.isElement || (border.Some? && border.value.id == n.id) || n.isViewRoot
  }

  /** The walk can step from `chain[0]` up to `chain[j]`: no node after the start on the way ends it. */
  predicate Reachable(chain: seq<Node>, j: nat, border: Option<Node>)
    requires j < |chain|
  {
    forall k :: 0 < k <= j ==> !EndsWalk(chain[k], border)
  }

  /**
   * The do-while walk. The result is the first bound node of the chain that the
   * walk reaches; the start is always tested, even when it is the border or a
   * LiveView root. The loop runs at most once per node of the chain.
   */
  method ClosestPhxBinding(chain: seq<Node>, binding: string, border: Option<Node>) returns (r: Option<Node>)
    requires |chain| > 0 && chain[0].isElement
    ensures IsBound(chain[0], binding) ==> r == Some(chain[0])
    ensures r.Some? ==> exists j :: 0 <= j < |chain| && r.value == chain[j] && IsBound(chain[j], binding)
                                   && Reachable(chain, j, border)
                                   && forall k :: 0 <= k < j ==> !IsBound(chain[k], binding)
    ensures r.None? ==> forall j :: 0 <= j < |chain| && Reachable(chain, j, border) ==> !IsBound(chain[j], binding)
  {
    var i := 0;
    while true
      invariant 0 <= i < |chain|
      invariant Reachable(chain, i, border)
      invariant forall k :: 0 <= k < i ==> !IsBound(chain[k], binding)
      decreases |chain| - i
    {
      if IsBound(chain[i], binding) {
        return Some(chain[i]);
      }
      if i + 1 == |chain| || EndsWalk(chain[i + 1], border) {
        if i + 1 < |chain| {
          forall j | i < j < |chain| ensures !Reachable(chain, j, border) {
            assert EndsWalk(chain[i + 1], border);
          }
        }
        return None;
      }
      i := i + 1;
    }
  }
}
