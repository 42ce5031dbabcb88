/** The attachment ids of a message (sendAttachmentIDs of server/internal/httpserver/message_handlers.go). */
module Attachments {
  import opened Bytes
  import opened Sequences

  type AttachmentId = nat  // 0 is uuid.Nil

  const MAX_ATTACHMENTS: nat := 10

  /** At most ten ids, none nil, none twice; an absent list is no attachments. */
  method SendAttachmentIds(listed: Option<seq<AttachmentId>>) returns (ids: Option<seq<AttachmentId>>)
    ensures listed.None? ==> ids == Some([])
    ensures listed.Some? ==>
              (ids.Some? <==> |listed.value| <= 10 && 0 !in listed.value && Distinct(listed.value))
    ensures listed.Some? && ids.Some? ==> ids == listed
  {
    if listed.None? {
      return Some([]);
    }
    var all := listed.value;
    if |all| > MAX_ATTACHMENTS {
      return None;
    }
    var seen: set<AttachmentId> := {};
    for i := 0 to |all|
      invariant seen == Elements(all[..i])
      invariant 0 !in all[..i] && Distinct(all[..i])
    {
      if all[i] == 0 || all[i] in seen {
        return None;
      }
      assert all[..i + 1] == all[..i] + [all[i]];
      seen := seen + {all[i]};
    }
    assert all[..|all|] == all;
    return Some(all);
  }
}
