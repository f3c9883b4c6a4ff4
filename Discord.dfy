/**
 The framework side of the cogs, reduced to values: a server member, the rich
 embed the image command posts, and the actions a handler asks the framework
 to carry out. A handler's observable behaviour is the sequence of actions it
 issues, in order.
 */
module Discord {
  import opened Wrappers

  /** A server member: an identifier the framework can address and the names of the member's roles, in order. */
  datatype Member = Member(id: string, roles: seq<string>)

  /** A server channel: its name and the mention text that links to it. */
  datatype Channel = Channel(name: string, mention: string)

  /** One field of a rich embed; a Python `None` value is kept as `None`. */
  datatype EmbedField = EmbedField(name: string, value: Option<string>, inline: bool)

  /** A rich embed as the image command fills it in (its colour is left out). */
  datatype Embed = Embed(
    kind: string,
    author: string,
    title: string,
    url: string,
    description: Option<string>,
    fields: seq<EmbedField>)

  /** An action handed to the framework. */
  datatype Effect =
    | SendDM(member: string, text: string)
    | SendChannel(channel: string, text: string)
    | SendEmbed(channel: string, embed: Embed)
    | AddRole(member: string, role: string)
}
