/**
 * The `Comment` model (comments/models.py): a comment optionally points at the
 * comment it answers.  `depth` walks the parent links up to a top-level
 * comment, counting the steps; `is_reply` says whether there is a parent.
 */
module Comments {

  class Comment {
    /** `parent`: the comment this one replies to, or `None` for a top-level comment. */
    var parent: Comment?
    /** This comment and all its ancestors. */
    ghost var Repr: set<Comment>

    /** The parent links end at a top-level comment: no comment is its own ancestor. */
    ghost predicate Valid()
      reads this, Repr
      decreases Repr
    {
      && this in Repr
      && (parent == null ==> Repr == {this})
      && (parent != null ==>
            && parent in Repr && Repr == {this} + parent.Repr
            && this !in parent.Repr && parent.Valid())
    }

    /** The number of parent links between this comment and its top-level comment. */
    ghost function Depth(): (d: nat)
      requires Valid()
      reads this, Repr
      ensures d == |Repr| - 1
      ensures d == 0 <==> parent == null
      decreases Repr
    {
      if parent == null then 0
      else
        assert |Repr| == 1 + |parent.Repr|;
        1 + parent.Depth()
    }

    /** A new comment replying to `parent`, or a top-level one when it is `null`. */
    constructor(parent: Comment?)
      requires parent != null ==> parent.Valid()
      ensures Valid() && this.parent == parent
      ensures Depth() == if parent == null then 0 else parent.Depth() + 1
    {
      this.parent := parent;
      Repr := if parent == null then {this} else {this} + parent.Repr;
    }

    /** The `depth` property: follows `parent` until a comment without one. */
    method ComputeDepth() returns (d: nat)
      requires Valid()
      ensures d == Depth() && d == |Repr| - 1
      ensures d == 0 <==> parent == null
      ensures parent != null ==> d == parent.Depth() + 1
    {
      d := 0;
      var obj := this;
      while obj.parent != null
        invariant obj in Repr && obj.Repr <= Repr && obj.Valid()
        invariant d + obj.Depth() == Depth()
        invariant d == 0 ==> obj == this
        decreases obj.Repr
      {
        d := d + 1;
        obj := obj.parent;
      }
    }

    /** The `is_reply` property: true exactly for comments below another, at depth 1 or more. */
    predicate IsReply()
      requires Valid()
      reads this, Repr
      ensures IsReply() <==> Depth() > 0
    {
      parent != null
    }
  }
}
