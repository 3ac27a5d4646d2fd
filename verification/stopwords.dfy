/** The stopword lists of the keyword card. */
module Stopwords {
  /** Chinese function words and interjections never counted as keywords. */
  predicate IsStopwordZh(w: string) {
    || w == "的" || w == "了" || w == "是" || w == "我" || w == "你" || w == "他"
    || w == "她" || w == "它" || w == "我们" || w == "你们" || w == "他们" || w == "她们"
    || w == "它们" || w == "这" || w == "那" || w == "这个" || w == "那个" || w == "这里"
    || w == "那里" || w == "这样" || w == "那样" || w == "就是" || w == "也是" || w == "还有"
    || w == "因为" || w == "所以" || w == "但是" || w == "如果" || w == "然后" || w == "已经"
    || w == "可以" || w == "还是" || w == "可能" || w == "不会" || w == "没有" || w == "不是"
    || w == "一个" || w == "一下" || w == "一下子" || w == "一下下" || w == "哈哈" || w == "哈哈哈"
    || w == "嘿嘿" || w == "呜呜" || w == "嗯" || w == "哦" || w == "啊" || w == "呀"
    || w == "啦" || w == "嘛" || w == "呢" || w == "吧" || w == "额" || w == "诶"
    || w == "哇" || w == "唉" || w == "好" || w == "行" || w == "ok" || w == "OK"
  }

  /** English function words and chat fillers never counted as keywords. */
  predicate IsStopwordEn(w: string) {
    || w == "the" || w == "a" || w == "an" || w == "and" || w == "or" || w == "but"
    || w == "to" || w == "of" || w == "in" || w == "on" || w == "for" || w == "with"
    || w == "at" || w == "from" || w == "as" || w == "is" || w == "are" || w == "was"
    || w == "were" || w == "be" || w == "been" || w == "being" || w == "i"
    || w == "me" || w == "my" || w == "you" || w == "your" || w == "he" || w == "she"
    || w == "it" || w == "we" || w == "they" || w == "them" || w == "this"
    || w == "that" || w == "these" || w == "those" || w == "yeah" || w == "haha"
    || w == "ok" || w == "okay" || w == "pls" || w == "lol"
  }
}
