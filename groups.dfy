/**
 * `whereScreen`: the group switch bound to the number keys.  Asking for the
 * group the current screen already shows goes back to the previous group;
 * otherwise the first group with the requested name is shown; when no group
 * has that name nothing happens.  The host's screen bookkeeping is not
 * modelled: the result says which group would be handed to `set_group`.
 */
module Groups {

  /** A workspace group; only its name matters here. */
  datatype Group = Group(name: string)

  /** What `whereScreen` hands to `set_group`. */
  datatype Selection = Previous | Switch(index: nat) | Unchanged

  method WhereScreen(groups: seq<Group>, current: Group, groupName: string) returns (sel: Selection)
    ensures sel == Previous <==> groupName == current.name
    ensures sel.Switch? ==>
      sel.index < |groups| && groups[sel.index].name == groupName
      && forall j :: 0 <= j < sel.index ==> groups[j].name != groupName
    ensures sel == Unchanged <==>
      groupName != current.name && forall j :: 0 <= j < |groups| ==> groups[j].name != groupName
  {
    if groupName == current.name {
      return Previous;
    }
    var i := 0;
    while i < |groups|
      invariant 0 <= i <= |groups|
      invariant forall j :: 0 <= j < i ==> groups[j].name != groupName
    {
      if groupName == groups[i].name {
        return Switch(i);
      }
      i := i + 1;
    }
    return Unchanged;
  }
}
