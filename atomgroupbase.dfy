/** The atom-group base class: a group size, a group type and a table whose used length never
    exceeds its allocated length. */
module AtomGroups {

  class AtomGroupBase {
    /** Size of the group; constant. */
    const size: int
    /** Type of the group (`type` in the C++ class). Not initialised by the constructor. */
    var groupType: int
    /** Global group list length; constant. */
    const numGroupList: int
    /** Used and allocated length of the group table, and the table itself. */
    var numTable: int
    var lenTable: int
    var table: array?<int>

    /** The table never uses more entries than it has. */
    predicate Valid()
      reads this
    {
      numTable <= lenTable
    }

    function GetType(): (t: int)
      reads this
    {
      groupType
    }

    function GetTable(): (a: array?<int>)
      reads this
    {
      table
    }

    function GetNumTable(): (k: int)
      reads this
    {
      numTable
    }

    function GetNumGroupList(): (k: int)
    {
      numGroupList
    }

    constructor (size: int, numGroupList: int)
      requires numGroupList > 0
      ensures Valid()
      ensures this.size == size && GetNumGroupList() == numGroupList
      ensures GetNumTable() == 0 && lenTable == 0 && GetTable() == null
    {
      this.size := size;
      this.numGroupList := numGroupList;
      numTable := 0;
      lenTable := 0;
      table := null;
    }

    /** `set_numTable`: the new used length may not exceed the allocated length. */
    method SetNumTable(numTable: int)
      requires numTable <= lenTable
      modifies this`numTable
      ensures GetNumTable() == numTable
      ensures Valid()
    {
      this.numTable := numTable;
    }

    /** `set_type`: only the type changes. */
    method SetType(t: int)
      modifies this`groupType
      ensures GetType() == t
      ensures Valid() == old(Valid())
    {
      groupType := t;
    }
  }
}
