/** The task record of the to-do list: four private mutable fields behind
    getters and setters (models/Task.java). Identity matters: the list code
    finds and removes tasks by reference, never by content. */
module Models {

  class Task {
    var name: string
    var description: string
    var isCompleted: bool
    /** `DD/MM/YYYY`, compared only as an opaque string key. */
    var dueDate: string

    constructor (name: string, description: string, isCompleted: bool, dueDate: string)
      ensures this.name == name && this.description == description
      ensures this.isCompleted == isCompleted && this.dueDate == dueDate
    {
      this.name := name;
      this.description := description;
      this.isCompleted := isCompleted;
      this.dueDate := dueDate;
    }

    function GetName(): (r: string)
      reads this
    {
      name
    }

    method SetName(name: string)
      modifies this`name
      ensures GetName() == name
    {
      this.name := name;
    }

    function GetDescription(): (r: string)
      reads this
    {
      description
    }

    method SetDescription(description: string)
      modifies this`description
      ensures GetDescription() == description
    {
      this.description := description;
    }

    function IsCompleted(): (r: bool)
      reads this
    {
      isCompleted
    }

    method SetCompleted(completed: bool)
      modifies this`isCompleted
      ensures IsCompleted() == completed
    {
      isCompleted := completed;
    }

    function GetDueDate(): (r: string)
      reads this
    {
      dueDate
    }

    method SetDueDate(dueDate: string)
      modifies this`dueDate
      ensures GetDueDate() == dueDate
    {
      this.dueDate := dueDate;
    }
  }
}
