/** Serial/ViewModel.cs: the earlier view model. It keeps the same list of
    sessions, selection and remove-command state as the WPF one, but closes
    an open session by setting its `IsOpen` to false directly.
    The confirmation box is the input `userAccepts`. */
module AppViewModel {
  import opened Base
  import opened ConnectionList
  import Connection

  class ViewModel {
    var connections: seq<Connection.SerialConnection>
    var selected: Connection.SerialConnection?
    /** `RemoveSerialConnectionCmd.CanExecute`. */
    var removeCanExecute: bool

    /** The constructor: an empty list with the remove command disabled,
        then one session added. */
    constructor (charset: Connection.Charset)
      ensures |connections| == 1 && fresh(connections[0]) && selected == connections[0]
      ensures connections[0].Initial(charset)
      ensures removeCanExecute
    {
      connections := [];
      selected := null;
      removeCanExecute := false;
      new;
      AddSerialConnection(charset);
    }

    /** `SerialConnectionsCollectionChanged`: the remove command is enabled
        exactly when there is a session and one is selected. */
    method CollectionChanged()
      modifies this`removeCanExecute
      ensures removeCanExecute == (|connections| > 0 && selected != null)
    {
      removeCanExecute := |connections| > 0 && selected != null;
    }

    /** `AddSerialConnection`: a new session is selected first and then
        appended, so the list change finds it selected. */
    method AddSerialConnection(charset: Connection.Charset)
      modifies this
      ensures |connections| == |old(connections)| + 1
      ensures connections[..|old(connections)|] == old(connections)
      ensures fresh(connections[|old(connections)|]) && connections[|old(connections)|] !in old(connections)
      ensures selected == connections[|old(connections)|]
      ensures connections[|old(connections)|].Initial(charset)
      ensures removeCanExecute
      ensures Distinct(old(connections)) ==> Distinct(connections)
    {
      var sc := new Connection.SerialConnection(charset);
      selected := sc;
      connections := connections + [sc];
      CollectionChanged();
    }

    /** The confirmation part of `RemoveSerialConnection`: an open session
        asks the user; on yes it is closed, on no the removal is called off.
        A closed session goes ahead untouched. */
    method ConfirmRemoval(sc: Connection.SerialConnection, userAccepts: bool) returns (flag: bool)
      modifies sc`isOpen, sc`inBuffer
      ensures sc.OnlyPortChanged()
      ensures flag == !(old(sc.isOpen) && !userAccepts)
      ensures old(sc.isOpen) && userAccepts ==> !sc.isOpen && sc.inBuffer == []
      ensures !(old(sc.isOpen) && userAccepts) ==> unchanged(sc)
    {
      flag := true;
      if sc.isOpen {
        if userAccepts {
          sc.Close();
        } else {
          flag := false;
        }
      }
    }

    /** The list part of `RemoveSerialConnection`: the session is removed
        (the list-change handler runs at that moment, while the removed session
        may still be the selection), and the selection moves to the session
        now at its index, else to the one at max(0, index - 1); an emptied list
        keeps the old selection. A session that is not in the list is not
        removed, and the source then indexes the list at -1, which throws. */
    method RemoveAndReselect(sc: Connection.SerialConnection) returns (thrown: bool)
      modifies this
      ensures connections == Removed(old(connections), sc)
      ensures sc in old(connections) ==> removeCanExecute == (|connections| > 0 && old(selected) != null)
      ensures sc !in old(connections) ==> removeCanExecute == old(removeCanExecute)
      ensures var i := IndexOf(old(connections), sc);
        && (i >= 0 ==> (
              && i <= |connections| && !thrown
              && selected == Chosen(Reselected(connections, i), old(selected))))
        && (i < 0 ==> thrown && selected == old(selected))
    {
      thrown := false;
      var index := IndexOf(connections, sc);
      if index >= 0 {
        connections := Removed(connections, sc);
        CollectionChanged();
      }
      if index < |connections| {
        if index < 0 {
          thrown := true;
          return;
        }
        selected := connections[index];
      } else if |connections| > 0 {
        selected := connections[if index - 1 > 0 then index - 1 else 0];
      }
    }

    /** `RemoveSerialConnection(sc)`: null is ignored; otherwise the user is
        asked about an open session and, if they agree, it is closed; unless
        they decline, the session is removed and the selection moved on. */
    method RemoveSerialConnection(sc: Connection.SerialConnection?, userAccepts: bool) returns (thrown: bool)
      modifies this, sc
      ensures sc != null ==> sc.OnlyPortChanged()
      ensures sc != null && old(sc.isOpen) && userAccepts ==> !sc.isOpen && sc.inBuffer == []
      ensures sc != null && !(old(sc.isOpen) && userAccepts) ==> unchanged(sc)
      ensures sc == null ==>
        !thrown && connections == old(connections) && selected == old(selected) && removeCanExecute == old(removeCanExecute)
      ensures sc != null && old(sc.isOpen) && !userAccepts ==>
        && !thrown
        && connections == old(connections) && selected == old(selected) && removeCanExecute == old(removeCanExecute)
      ensures sc != null && !(old(sc.isOpen) && !userAccepts) ==>
        && connections == Removed(old(connections), sc)
        && (sc in old(connections) ==> removeCanExecute == (|connections| > 0 && old(selected) != null))
        && (sc !in old(connections) ==> removeCanExecute == old(removeCanExecute))
        && var i := IndexOf(old(connections), sc);
        && (i >= 0 ==> (
              && i <= |connections| && !thrown
              && selected == Chosen(Reselected(connections, i), old(selected))))
        && (i < 0 ==> thrown && selected == old(selected))
    {
      thrown := false;
      if sc == null {
        return;
      }
      var flag := ConfirmRemoval(sc, userAccepts);
      if flag {
        thrown := RemoveAndReselect(sc);
      }
    }
  }
}
