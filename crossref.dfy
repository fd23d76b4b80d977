/**
 * The parts of a Crossref `works` response (`response.json()["message"]`) that the scripts
 * read. Every field is a key that may be absent; `otherKeys` stands for the keys no script
 * reads, which only matter for whether the dictionary is empty.
 */
module Crossref {
  import opened Wrappers

  /** One element of `message["author"]`. */
  datatype Author = Author(given: Option<string>, family: Option<string>)

  /** `message["created"]`. */
  datatype Created = Created(dateTime: Option<string>)

  /** One element of `message["reference"]`: its `DOI` key, if any, and the other fields. */
  datatype Entity = Entity(doi: Option<string>, otherFields: map<string, string>)

  datatype Message = Message(
    title: Option<seq<string>>,
    publisher: Option<string>,
    issue: Option<string>,
    created: Option<Created>,
    author: Option<seq<Author>>,
    reference: Option<seq<Entity>>,
    otherKeys: set<string>)
  {
    /** The message is `{}`, which Python treats as false. */
    predicate IsEmpty() {
      && title.None? && publisher.None? && issue.None? && created.None?
      && author.None? && reference.None? && otherKeys == {}
    }
  }

  /** What `response.json().get('message', {})` gives when the key is absent. */
  const EmptyMessage := Message(None, None, None, None, None, None, {})
}
