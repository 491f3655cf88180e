/**
 * `FolderService` of backend/internal/vault/folders.go: its methods are proved
 * to be the steps of `Folders`, and the tree it assembles to hold exactly the
 * folders whose chain of parents ends at a root.
 */
module FolderServices {
  import opened Bytes
  import opened Folders

  class FolderService {
    var folders: Table

    /** The ancestor walk. It ends on any rows, looping parents included. */
    method WouldCreateCycle(folderID: Id, newParentID: Id) returns (cycle: bool)
      ensures cycle <==> Reaches(folders, newParentID, folderID)
    {
      var currentID := newParentID;
      var visited: set<Id> := {};
      ghost var n: nat := 0;
      while true
        invariant visited <= folders.Keys && folderID !in visited
        invariant Up(folders, newParentID, n) == Some(currentID)
        invariant newParentID in visited + {currentID}
        invariant forall x :: x in visited && ParentOf(folders, x).Some? ==>
                    ParentOf(folders, x).value in visited + {currentID}
        decreases folders.Keys - visited
      {
        if currentID == folderID {
          return true;
        }
        if currentID in visited {
          NotAbove(folders, visited, newParentID, folderID);
          return false;
        }
        visited := visited + {currentID};
        if currentID !in folders || folders[currentID].parent.None? {
          NotAbove(folders, visited, newParentID, folderID);
          return false;
        }
        UpSkips(folders, newParentID, n, 1);
        n := n + 1;
        assert Up(folders, currentID, 1) == folders[currentID].parent;
        currentID := folders[currentID].parent.value;
      }
    }

    method GetNextPosition(user: User, parent: Option<Id>) returns (position: int)
      ensures NextPosition(folders, user, parent, position)
      ensures position == 0 || exists x :: x in folders && folders[x].owner == user && folders[x].parent == parent
                                        && folders[x].position + 1 == position
      ensures forall x :: x in folders && folders[x].owner == user && folders[x].parent == parent ==> folders[x].position < position
    {
      ghost var level := set x | x in folders && folders[x].owner == user && folders[x].parent == parent;
      var left := set x | x in folders && folders[x].owner == user && folders[x].parent == parent;
      var max: Option<int> := None;
      while left != {}
        invariant left <= level
        invariant forall x :: x in level && x !in left ==> max.Some? && folders[x].position <= max.value
        invariant max.Some? ==> exists x :: x in level && folders[x].position == max.value
        decreases left
      {
        var x :| x in left;
        left := left - {x};
        if max.None? || folders[x].position > max.value {
          max := Some(folders[x].position);
        }
      }
      position := if max.Some? then max.value + 1 else 0;
    }

    method CreateFolder(user: User, id: Id, parent: Option<Id>, name: string, icon: string, color: string)
      returns (r: Result<Folder, Error>)
      modifies this
      ensures var req := Create(user, id, parent, name, icon, color);
        && Step(old(folders), req, folders)
        && (if r.Err? then Refusal(old(folders), req) == Some(r.error)
            else Refusal(old(folders), req).None? && id in folders && folders[id] == r.value)
      ensures r.Err? ==> folders == old(folders)
      ensures r == Err(ParentNotFound) <==> parent.Some? && !(parent.value in old(folders) && old(folders)[parent.value].owner == user)
      ensures r == Err(IdTaken) ==> id in old(folders)
      ensures r == Err(NameTaken) ==> parent.Some?
      ensures r == Err(NameTaken) ==>
        exists x :: x in old(folders) && old(folders)[x].owner == user && old(folders)[x].parent == parent && old(folders)[x].name == name
      ensures r.Ok? ==>
        && id !in old(folders) && folders == old(folders)[id := r.value]
        && r.value == Folder(user, parent, name, if icon == "" then "\U{1F4C1}" else icon,
                             if color == "" then "#6366f1" else color, r.value.position)
      ensures r.Ok? ==> forall x :: x in old(folders) && old(folders)[x].owner == user && old(folders)[x].parent == parent ==>
        old(folders)[x].name != name || parent.None?
      ensures r.Ok? ==> forall x :: x in old(folders) && old(folders)[x].owner == user && old(folders)[x].parent == parent ==>
        old(folders)[x].position < r.value.position
      ensures r.Ok? && r.value.position != 0 ==>
        exists x :: x in old(folders) && old(folders)[x].owner == user && old(folders)[x].parent == parent
                 && old(folders)[x].position + 1 == r.value.position
    {
      if parent.Some? && !BelongsTo(folders, parent.value, user) {
        return Err(ParentNotFound);
      }
      var position := GetNextPosition(user, parent);
      var folder := Created(Create(user, id, parent, name, icon, color), position);
      if id in folders {
        return Err(IdTaken);
      }
      if NameClash(folders, id, folder) {
        return Err(NameTaken);
      }
      folders := folders[id := folder];
      r := Ok(folder);
    }

    method UpdateFolder(user: User, id: Id, name: Option<string>, parent: Option<Id>, icon: Option<string>,
                        color: Option<string>, position: Option<int>)
      returns (r: Result<Folder, Error>)
      modifies this
      ensures var req := Update(user, id, name, parent, icon, color, position);
        && Step(old(folders), req, folders)
        && (if r.Err? then Refusal(old(folders), req) == Some(r.error)
            else Refusal(old(folders), req).None? && id in folders && folders[id] == r.value)
      ensures r.Err? ==> folders == old(folders)
      ensures r == Err(NotFound) <==> !(id in old(folders) && old(folders)[id].owner == user)
      ensures id in old(folders) && old(folders)[id].owner == user ==>
        && (r == Err(OwnParent) <==> parent == Some(id))
        && (r == Err(ParentNotFound) <==>
              && parent.Some? && parent.value != id
              && !(parent.value in old(folders) && old(folders)[parent.value].owner == user))
        && (r == Err(CircularReference) <==>
              && parent.Some? && parent.value != id
              && parent.value in old(folders) && old(folders)[parent.value].owner == user
              && Reaches(old(folders), parent.value, id))
      ensures r.Ok? ==>
        var f := old(folders)[id];
        && folders == old(folders)[id := r.value]
        && r.value == Folder(user, if parent.Some? then parent else f.parent, if name.Some? then name.value else f.name,
                             if icon.Some? then icon.value else f.icon, if color.Some? then color.value else f.color,
                             if position.Some? then position.value else f.position)
    {
      if !BelongsTo(folders, id, user) {
        return Err(NotFound);
      }
      if parent.Some? {
        if parent.value == id {
          return Err(OwnParent);
        }
        if !BelongsTo(folders, parent.value, user) {
          return Err(ParentNotFound);
        }
        var cycle := WouldCreateCycle(id, parent.value);
        if cycle {
          return Err(CircularReference);
        }
      }
      var edited := Edited(folders[id], Update(user, id, name, parent, icon, color, position));
      if edited != folders[id] && NameClash(folders, id, edited) {
        return Err(NameTaken);
      }
      folders := folders[id := edited];
      r := Ok(edited);
    }

    /** What deleting a row does to the rows below it: each loses its parent and goes in turn. */
    method DeleteCascading(id: Id)
      requires id in folders
      modifies this
      ensures folders == WithoutSubtree(old(folders), id)
    {
      ReachesSelf(folders, id);
      var doomed := {id};
      while exists x :: x in folders && x !in doomed && folders[x].parent.Some? && folders[x].parent.value in doomed
        invariant id in doomed && doomed <= folders.Keys && folders == old(folders)
        invariant forall x :: x in doomed ==> Reaches(folders, x, id)
        decreases folders.Keys - doomed
      {
        var x :| x in folders && x !in doomed && folders[x].parent.Some? && folders[x].parent.value in doomed;
        ReachesByParent(folders, x, id);
        doomed := doomed + {x};
      }
      forall x | x in folders ensures x in doomed <==> Reaches(folders, x, id) {
        if Reaches(folders, x, id) {
          var k: nat :| Up(folders, x, k) == Some(id);
          ClosedHoldsDescendants(folders, doomed, x, k);
        }
      }
      folders := map x | x in folders && x !in doomed :: folders[x];
    }

    method DeleteFolder(user: User, id: Id, recursive: bool, entries: nat) returns (r: Result<(), Error>)
      modifies this
      ensures var req := Delete(user, id, recursive, entries);
        && Step(old(folders), req, folders)
        && (if r.Err? then Refusal(old(folders), req) == Some(r.error) else Refusal(old(folders), req).None?)
      ensures r.Err? ==> folders == old(folders)
      ensures r.Ok? <==>
        && id in old(folders) && old(folders)[id].owner == user
        && (recursive || (entries == 0 && forall x :: x in old(folders) ==> old(folders)[x].parent != Some(id)))
      ensures r.Ok? && !recursive ==> folders == old(folders) - {id}
      ensures r.Ok? && recursive ==> forall x :: x in folders <==> x in old(folders) && !Reaches(old(folders), x, id)
      ensures r.Ok? && recursive ==> forall x :: x in folders ==> folders[x] == old(folders)[x]
    {
      if !BelongsTo(folders, id, user) {
        return Err(NotFound);
      }
      if recursive {
        DeleteCascading(id);
      } else {
        var children := Children(folders, id);
        if |children| > 0 {
          return Err(HasChildren(|children|));
        }
        if entries > 0 {
          return Err(HasEntries(entries));
        }
        assert forall x :: x in folders ==> x !in children;
        LeafSubtree(folders, id);
        folders := folders - {id};
      }
      r := Ok(());
    }
  }

  lemma NotAbove(t: Table, closed: set<Id>, from: Id, target: Id)
    requires from in closed && target !in closed
    requires forall x :: x in closed && ParentOf(t, x).Some? ==> ParentOf(t, x).value in closed
    ensures !Reaches(t, from, target)
  {
    if Reaches(t, from, target) {
      var k: nat :| Up(t, from, k) == Some(target);
      ClosedHoldsAncestors(t, closed, from, k);
    }
  }
}
