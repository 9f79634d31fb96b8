/** Shared vocabulary of the antctl transform packages: the member projection that responses
    carry, the external list summariser, and an Option for partial parses. */
module Common {

  datatype Option<T> = None | Some(value: T)

  /** The display projection of one pod (or node) member of a group: its IP address and the
      reference metadata the projection keeps, shown here as a string. The projection itself
      (GroupMemberPodTransform in the shared package) is not part of this model. */
  datatype GroupMember = GroupMember(ip: string, reference: string)

  /** GenerateTableElementWithSummary: turns a list of strings into one table cell no wider than
      the given column length. Its truncation policy belongs to the shared package and is not
      part of this model, so every caller receives it as a parameter. */
  type Summarizer = (seq<string>, int) -> string
}
